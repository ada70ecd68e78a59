/**
 * Registration in 0x03-user_authentication_service/auth.py.
 *
 * The user database is a map from e-mail address to the stored password hash: a
 * lookup by e-mail is `email in db`, adding a user is a map update. bcrypt is a
 * function `hashpw` fixed when the service is built (it is deterministic given its
 * salt); the random salt bcrypt.gensalt() draws is an argument of each registration.
 */
module UserAuthService {
  import opened Wrappers
  import opened Bytes
  import Utf8

  /** A registered user: e-mail address and the text form of the password hash. */
  datatype User = User(email: string, hashedPassword: string)

  /**
   * Why a registration fails: the ValueError raised for a known address, or the
   * UnicodeDecodeError raised when the hash bytes are not UTF-8 text.
   */
  datatype RegisterError = AlreadyExists(email: string) | HashNotText

  /**
   * _hash_password: bcrypt with a fresh salt over the bytes of the password, which
   * are the one byte string whose UTF-8 decoding is the password.
   */
  function HashPassword(hashpw: (seq<byte>, seq<byte>) -> seq<byte>, password: string, salt: seq<byte>): (h: seq<byte>)
    ensures forall b :: Utf8.Decode(b) == Some(password) ==> h == hashpw(b, salt)
  {
    Utf8.EncodingIsUnique(password);
    hashpw(Utf8.Encode(password), salt)
  }

  /**
   * register_user on a store: the outcome and the store afterwards. A known address
   * fails and leaves the store as it was; otherwise the hash is decoded to text and
   * a user with that address and that text is added and returned.
   */
  function Register(db: map<string, string>, email: string, password: string, salt: seq<byte>,
                    hashpw: (seq<byte>, seq<byte>) -> seq<byte>): (r: (Result<User, RegisterError>, map<string, string>))
    ensures r.0.Failure? <==> r.1 == db
    ensures forall e :: e in db ==> e in r.1 && r.1[e] == db[e]
    ensures r.0.Success? ==>
      && email !in db
      && r.0.value.email == email
      && r.1 == db[email := r.0.value.hashedPassword]
  {
    if email in db then (Failure(AlreadyExists(email)), db)
    else match Utf8.Decode(HashPassword(hashpw, password, salt))
      case None => (Failure(HashNotText), db)
      case Some(text) => (Success(User(email, text)), db[email := text])
  }

  /** The authentication service and the user database it owns. */
  class Auth {
    var db: map<string, string>
    const hashpw: (seq<byte>, seq<byte>) -> seq<byte>

    /** A service over a new, empty database. */
    constructor (hashpw: (seq<byte>, seq<byte>) -> seq<byte>)
      ensures db == map[] && this.hashpw == hashpw
    {
      db := map[];
      this.hashpw := hashpw;
    }

    method RegisterUser(email: string, password: string, salt: seq<byte>) returns (r: Result<User, RegisterError>)
      modifies this
      ensures (r, db) == Register(old(db), email, password, salt, hashpw)
    {
      if email in db {
        r := Failure(AlreadyExists(email));
        return;
      }
      var hashed := HashPassword(hashpw, password, salt);
      match Utf8.Decode(hashed)
      case None =>
        r := Failure(HashNotText);
      case Some(text) =>
        db := db[email := text];
        r := Success(User(email, text));
    }
  }

  /** A known address is refused with its own name and the store is left as it was. */
  lemma DuplicateRefused(db: map<string, string>, email: string, password: string, salt: seq<byte>,
                         hashpw: (seq<byte>, seq<byte>) -> seq<byte>)
    requires email in db
    ensures Register(db, email, password, salt, hashpw) == (Failure(AlreadyExists(email)), db)
  {
  }

  /**
   * A new address whose hash is text is added as exactly one user, returned, and
   * every other user is kept as it was.
   */
  lemma NewEmailAdded(db: map<string, string>, email: string, password: string, salt: seq<byte>,
                      hashpw: (seq<byte>, seq<byte>) -> seq<byte>)
    requires email !in db && Utf8.Decode(HashPassword(hashpw, password, salt)).Some?
    ensures var (r, db') := Register(db, email, password, salt, hashpw);
      && r.Success? && r.value.email == email
      && db'.Keys == db.Keys + {email} && |db'| == |db| + 1
      && db'[email] == r.value.hashedPassword
      && forall e :: e in db ==> db'[e] == db[e]
  {
    var (r, db') := Register(db, email, password, salt, hashpw);
    assert db'.Keys == db.Keys + {email};
    assert email !in db.Keys;
  }

  /** What is stored for the new user is the text whose UTF-8 bytes are bcrypt's output for the password. */
  lemma StoredIsHash(db: map<string, string>, email: string, password: string, salt: seq<byte>,
                     hashpw: (seq<byte>, seq<byte>) -> seq<byte>)
    requires Register(db, email, password, salt, hashpw).0.Success?
    ensures var (r, db') := Register(db, email, password, salt, hashpw);
      Utf8.Encode(db'[email]) == hashpw(Utf8.Encode(password), salt)
  {
    var (r, db') := Register(db, email, password, salt, hashpw);
    Utf8.EncodeDecode(HashPassword(hashpw, password, salt), r.value.hashedPassword);
  }

  /** Once an address is registered, registering it again fails, whatever the password and salt. */
  lemma RegisterTwice(db: map<string, string>, email: string, password: string, salt: seq<byte>,
                      password2: string, salt2: seq<byte>, hashpw: (seq<byte>, seq<byte>) -> seq<byte>)
    requires Register(db, email, password, salt, hashpw).0.Success?
    ensures var db' := Register(db, email, password, salt, hashpw).1;
      Register(db', email, password2, salt2, hashpw) == (Failure(AlreadyExists(email)), db')
  {
    var db' := Register(db, email, password, salt, hashpw).1;
    assert email in db';
  }

  /** Two registrations of one address on a service: whatever the first does, the second is refused. */
  method RegisterSameEmailTwice(auth: Auth, email: string, password: string, salt: seq<byte>)
    returns (first: Result<User, RegisterError>, second: Result<User, RegisterError>)
    modifies auth
    ensures first.Success? ==> second == Failure(AlreadyExists(email))
    ensures first.Success? ==> auth.db == old(auth.db)[email := first.value.hashedPassword]
    ensures first.Failure? ==> auth.db == old(auth.db)
  {
    first := auth.RegisterUser(email, password, salt);
    second := auth.RegisterUser(email, password, salt);
  }
}
