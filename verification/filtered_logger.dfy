/**
 * filter_datum of 0x00-personal_data/filtered_logger.py: one re.sub with the
 * pattern (f1|f2|...)=.*?SEP, whose replacement function writes the matched field
 * name, '=', the redaction and the separator.
 *
 * The model is the scan re.sub performs for that pattern when the field names and
 * the separator are plain text: at each position, try the fields in list order;
 * a field matches when the text there starts with the field and '=', and a
 * separator follows with no line break before it ('.' does not match '\n');
 * the value is the shortest text up to that separator. A match is replaced and
 * scanning resumes after it; elsewhere one character is copied and scanning
 * moves on by one.
 */
module FilteredLogger {
  import opened Wrappers

  /** Characters with a special meaning in a Python regular expression. */
  const Metacharacters: set<char> := {'.', '^', '$', '*', '+', '?', '{', '}', '[', ']', '\\', '|', '(', ')'}

  predicate IsLiteral(s: string) {
    forall i :: 0 <= i < |s| ==> s[i] !in Metacharacters
  }

  /** The field names and the separator are plain text, so the pattern matches them literally. */
  predicate LiteralPattern(fields: seq<string>, separator: char) {
    (forall f :: f in fields ==> IsLiteral(f)) && separator !in Metacharacters
  }

  /**
   * The alternatives of the group ("|".join(fields)): the fields in order; an empty
   * list joins to the empty pattern, which is one empty alternative.
   */
  function Alternatives(fields: seq<string>): (alts: seq<string>)
    ensures fields != [] ==> alts == fields
    ensures fields == [] ==> alts == [""]
  {
    if fields == [] then [""] else fields
  }

  /**
   * How much text the lazy `.*?` takes before the separator: up to the first
   * separator, provided no line break comes before it.
   */
  function ValueLength(s: string, sep: char): (r: Option<nat>)
    ensures r.Some? ==> r.value < |s| && s[r.value] == sep && sep !in s[..r.value] && '\n' !in s[..r.value]
    ensures r.None? ==> forall k :: 0 <= k < |s| && s[k] == sep ==> '\n' in s[..k]
    decreases |s|
  {
    if s == [] then None
    else if s[0] == sep then Some(0)
    else if s[0] == '\n' then None
    else match ValueLength(s[1..], sep)
      case None =>
        assert forall k :: 1 <= k < |s| ==> s[..k] == [s[0]] + s[1..][..k - 1];
        None
      case Some(n) =>
        assert s[..n + 1] == [s[0]] + s[1..][..n];
        Some(n + 1)
  }

  /** A match: the field the group captured, the value, and the text after the separator. */
  datatype Match = Match(field: string, value: string, rest: string)

  /** The match of one alternative at the front of s: the field, '=', and a value that a separator ends. */
  function TryField(f: string, s: string, sep: char): (r: Option<Match>)
    ensures r.Some? ==>
      && r.value.field == f
      && s == f + "=" + r.value.value + [sep] + r.value.rest
      && sep !in r.value.value && '\n' !in r.value.value
    ensures r.None? && f + "=" <= s ==> ValueLength(s[|f| + 1..], sep).None?
  {
    if f + "=" <= s then
      var v := s[|f| + 1..];
      match ValueLength(v, sep)
      case Some(n) =>
        assert s == f + "=" + v[..n] + [sep] + v[n + 1..] by {
          assert s == s[..|f| + 1] + v && s[..|f| + 1] == f + "=";
          assert v == v[..n] + [sep] + v[n + 1..];
        }
        Some(Match(f, v[..n], v[n + 1..]))
      case None => None
    else None
  }

  /** The match starting at the front of s, trying the alternatives in order. */
  function MatchAt(alts: seq<string>, s: string, sep: char): (r: Option<Match>)
    ensures r.Some? ==>
      && r.value.field in alts
      && s == r.value.field + "=" + r.value.value + [sep] + r.value.rest
      && sep !in r.value.value && '\n' !in r.value.value
    decreases |alts|
  {
    if alts == [] then None
    else match TryField(alts[0], s, sep)
      case Some(m) => Some(m)
      case None => MatchAt(alts[1..], s, sep)
  }

  /** Alternative i matches at the front of s and none before it does. */
  predicate IsFirstMatch(alts: seq<string>, s: string, sep: char, i: int) {
    && 0 <= i < |alts| && TryField(alts[i], s, sep).Some?
    && forall j :: 0 <= j < i ==> TryField(alts[j], s, sep).None?
  }

  /**
   * Regex alternation: the match at the front of s is that of the first alternative,
   * in list order, that matches.
   */
  lemma {:induction false} MatchAtIsFirstMatch(alts: seq<string>, s: string, sep: char)
    ensures MatchAt(alts, s, sep).Some? ==>
      exists i :: IsFirstMatch(alts, s, sep, i) && TryField(alts[i], s, sep) == MatchAt(alts, s, sep)
    decreases |alts|
  {
    if alts == [] {
    } else if TryField(alts[0], s, sep).Some? {
      assert IsFirstMatch(alts, s, sep, 0);
    } else if MatchAt(alts[1..], s, sep).Some? {
      assert MatchAt(alts[1..], s, sep) == MatchAt(alts, s, sep);
      MatchAtIsFirstMatch(alts[1..], s, sep);
      var i :| IsFirstMatch(alts[1..], s, sep, i) && TryField(alts[1..][i], s, sep) == MatchAt(alts, s, sep);
      FirstMatchShift(alts, s, sep, i);
    }
  }

  /** When the first alternative does not match, the first match among the others is the first of all. */
  lemma FirstMatchShift(alts: seq<string>, s: string, sep: char, i: int)
    requires alts != [] && TryField(alts[0], s, sep).None? && IsFirstMatch(alts[1..], s, sep, i)
    ensures IsFirstMatch(alts, s, sep, i + 1) && alts[i + 1] == alts[1..][i]
  {
    forall j | 0 <= j < i + 1
      ensures TryField(alts[j], s, sep).None?
    {
      if j > 0 {
        assert alts[j] == alts[1..][j - 1];
      }
    }
  }

  /** Regex alternation: there is no match at the front of s exactly when no alternative matches there. */
  lemma {:induction false} NoMatchNoAlternative(alts: seq<string>, s: string, sep: char)
    ensures MatchAt(alts, s, sep).None? ==> forall f :: f in alts ==> TryField(f, s, sep).None?
    decreases |alts|
  {
    if alts != [] && MatchAt(alts, s, sep).None? {
      NoMatchNoAlternative(alts[1..], s, sep);
      forall f | f in alts
        ensures TryField(f, s, sep).None?
      {
        if f != alts[0] {
          assert f in alts[1..];
        }
      }
    }
  }

  /** The scan's view of the message: characters copied as they are, and matched field/value pairs. */
  datatype Piece = Kept(c: char) | Masked(field: string, value: string)

  /** re.sub's left-to-right scan for non-overlapping matches. */
  function Scan(alts: seq<string>, s: string, sep: char): (ps: seq<Piece>)
    ensures forall p :: p in ps && p.Masked? ==> p.field in alts && sep !in p.value && '\n' !in p.value
    decreases |s|
  {
    if s == [] then []
    else match MatchAt(alts, s, sep)
      case Some(m) => [Masked(m.field, m.value)] + Scan(alts, m.rest, sep)
      case None => [Kept(s[0])] + Scan(alts, s[1..], sep)
  }

  /** The text the pieces were read from. */
  function Original(ps: seq<Piece>, sep: char): string
    decreases |ps|
  {
    if ps == [] then []
    else
      (match ps[0]
       case Kept(c) => [c]
       case Masked(f, v) => f + "=" + v + [sep])
      + Original(ps[1..], sep)
  }

  /** The text re.sub builds: every value replaced by the redaction, inserted literally. */
  function Rendered(ps: seq<Piece>, redaction: string, sep: char): string
    decreases |ps|
  {
    if ps == [] then []
    else
      (match ps[0]
       case Kept(c) => [c]
       case Masked(f, v) => f + "=" + redaction + [sep])
      + Rendered(ps[1..], redaction, sep)
  }

  /**
   * filter_datum(fields, redaction, message, separator): the message cut into copied
   * characters and assignments of listed fields, with each assigned value replaced.
   */
  function FilterDatum(fields: seq<string>, redaction: string, message: string, separator: char): (r: string)
    requires LiteralPattern(fields, separator)
    ensures exists ps: seq<Piece> ::
      && Original(ps, separator) == message && r == Rendered(ps, redaction, separator)
      && LeftmostCut(Alternatives(fields), ps, separator)
      && forall p: Piece :: p in ps && p.Masked? ==>
           p.field in Alternatives(fields) && separator !in p.value && '\n' !in p.value
  {
    ScanReassembles(Alternatives(fields), message, separator);
    ScanIsLeftmostCut(Alternatives(fields), message, separator);
    Rendered(Scan(Alternatives(fields), message, separator), redaction, separator)
  }

  lemma {:induction false} ScanReassembles(alts: seq<string>, s: string, sep: char)
    ensures Original(Scan(alts, s, sep), sep) == s
    decreases |s|
  {
    if s != [] {
      var ps := Scan(alts, s, sep);
      match MatchAt(alts, s, sep)
      case Some(m) =>
        ScanReassembles(alts, m.rest, sep);
        assert ps[1..] == Scan(alts, m.rest, sep);
      case None =>
        ScanReassembles(alts, s[1..], sep);
        assert ps[1..] == Scan(alts, s[1..], sep);
        assert [s[0]] + s[1..] == s;
    }
  }

  /**
   * Only values change: the message is the concatenation of its pieces read in
   * order, and the result is the same concatenation with each matched value,
   * and nothing else, replaced by the redaction. Every value is the shortest text
   * before a separator, and every field one of the listed names.
   */
  lemma OnlyValuesChange(fields: seq<string>, redaction: string, message: string, separator: char)
    requires LiteralPattern(fields, separator)
    ensures var ps := Scan(Alternatives(fields), message, separator);
      && Original(ps, separator) == message
      && FilterDatum(fields, redaction, message, separator) == Rendered(ps, redaction, separator)
      && forall p :: p in ps && p.Masked? ==>
           p.field in Alternatives(fields) && separator !in p.value && '\n' !in p.value
  {
    ScanReassembles(Alternatives(fields), message, separator);
  }

  /** Where the scan resumes after its first piece. */
  function Resume(alts: seq<string>, s: string, sep: char): string
    requires s != []
  {
    match MatchAt(alts, s, sep)
    case Some(m) => m.rest
    case None => s[1..]
  }

  lemma ResumeShorter(alts: seq<string>, s: string, sep: char)
    requires s != []
    ensures |Resume(alts, s, sep)| < |s|
  {
  }

  lemma ScanHead(alts: seq<string>, s: string, sep: char)
    requires s != []
    ensures var ps := Scan(alts, s, sep);
      && |ps| > 0 && ps[1..] == Scan(alts, Resume(alts, s, sep), sep)
      && (ps[0].Kept? ==> MatchAt(alts, s, sep).None?)
      && (ps[0].Masked? ==> MatchAt(alts, s, sep) == Some(Match(ps[0].field, ps[0].value, Resume(alts, s, sep))))
  {
  }

  /**
   * The scan is leftmost and does not overlap: where a character is copied, no
   * match starts; where a value is masked, the match starting there is exactly
   * that field and value, and the scan goes on right after its separator.
   */
  lemma {:induction false} ScanIsLeftmost(alts: seq<string>, s: string, sep: char, k: nat)
    requires k < |Scan(alts, s, sep)|
    ensures var ps := Scan(alts, s, sep);
      && (ps[k].Kept? ==> MatchAt(alts, Original(ps[k..], sep), sep).None?)
      && (ps[k].Masked? ==>
            MatchAt(alts, Original(ps[k..], sep), sep) == Some(Match(ps[k].field, ps[k].value, Original(ps[k + 1..], sep))))
    decreases |s|
  {
    var ps := Scan(alts, s, sep);
    ScanHead(alts, s, sep);
    var t := Resume(alts, s, sep);
    if k == 0 {
      ScanReassembles(alts, s, sep);
      ScanReassembles(alts, t, sep);
      assert ps[0..] == ps;
    } else {
      ScanIsLeftmost(alts, t, sep, k - 1);
      assert ps[k..] == ps[1..][k - 1..];
      assert ps[k + 1..] == ps[1..][k..];
    }
  }

  /**
   * A cut of a text as re.sub makes it: where a character is copied no match
   * starts, and where a value is masked the match starting there is exactly that
   * field and value, followed by the rest of the cut.
   */
  predicate LeftmostCut(alts: seq<string>, ps: seq<Piece>, sep: char) {
    forall k :: 0 <= k < |ps| ==>
      && (ps[k].Kept? ==> MatchAt(alts, Original(ps[k..], sep), sep).None?)
      && (ps[k].Masked? ==>
            MatchAt(alts, Original(ps[k..], sep), sep) == Some(Match(ps[k].field, ps[k].value, Original(ps[k + 1..], sep))))
  }

  lemma ScanIsLeftmostCut(alts: seq<string>, s: string, sep: char)
    ensures LeftmostCut(alts, Scan(alts, s, sep), sep)
  {
    forall k | 0 <= k < |Scan(alts, s, sep)| {
      ScanIsLeftmost(alts, s, sep, k);
    }
  }

  /** Dropping the first piece of a leftmost cut leaves a leftmost cut. */
  lemma LeftmostCutTail(alts: seq<string>, ps: seq<Piece>, sep: char)
    requires ps != [] && LeftmostCut(alts, ps, sep)
    ensures LeftmostCut(alts, ps[1..], sep)
  {
    var qs := ps[1..];
    forall k | 0 <= k < |qs|
      ensures && (qs[k].Kept? ==> MatchAt(alts, Original(qs[k..], sep), sep).None?)
              && (qs[k].Masked? ==>
                    MatchAt(alts, Original(qs[k..], sep), sep) == Some(Match(qs[k].field, qs[k].value, Original(qs[k + 1..], sep))))
    {
      assert qs[k] == ps[k + 1];
      assert qs[k..] == ps[k + 1..];
      assert qs[k + 1..] == ps[k + 2..];
    }
  }

  /**
   * A text has only one leftmost cut, so the existential in FilterDatum's contract
   * determines its result.
   */
  lemma {:induction false} LeftmostCutIsUnique(alts: seq<string>, ps: seq<Piece>, qs: seq<Piece>, sep: char)
    requires LeftmostCut(alts, ps, sep) && LeftmostCut(alts, qs, sep)
    requires Original(ps, sep) == Original(qs, sep)
    ensures ps == qs
    decreases |ps|
  {
    var s := Original(ps, sep);
    if ps == [] || qs == [] {
      assert ps == [] && qs == [];
    } else {
      assert ps[0..] == ps && qs[0..] == qs;
      assert ps[0] == qs[0] && Original(ps[1..], sep) == Original(qs[1..], sep) by {
        if ps[0].Kept? {
          assert MatchAt(alts, s, sep).None?;
          assert s[1..] == Original(ps[1..], sep) && s[1..] == Original(qs[1..], sep);
        }
      }
      LeftmostCutTail(alts, ps, sep);
      LeftmostCutTail(alts, qs, sep);
      LeftmostCutIsUnique(alts, ps[1..], qs[1..], sep);
      assert ps == [ps[0]] + ps[1..] && qs == [qs[0]] + qs[1..];
    }
  }

  /** Every match ends with a separator. */
  lemma MatchNeedsSeparator(alts: seq<string>, s: string, sep: char)
    ensures MatchAt(alts, s, sep).Some? ==> sep in s
  {
    var r := MatchAt(alts, s, sep);
    if r.Some? {
      var m := r.value;
      assert s[|m.field| + 1 + |m.value|] == sep;
    }
  }

  /** What the first piece of a scan renders to. */
  function HeadText(alts: seq<string>, s: string, sep: char, redaction: string): string
    requires s != []
  {
    match MatchAt(alts, s, sep)
    case Some(m) => m.field + "=" + redaction + [sep]
    case None => [s[0]]
  }

  /** Rendering a scan: the first piece's text, then the rest. */
  lemma RenderedHead(alts: seq<string>, s: string, sep: char, redaction: string)
    requires s != []
    ensures Rendered(Scan(alts, s, sep), redaction, sep) ==
      HeadText(alts, s, sep, redaction) + Rendered(Scan(alts, Resume(alts, s, sep), sep), redaction, sep)
  {
    ScanHead(alts, s, sep);
  }

  /** Text with no separator in it is copied unchanged. */
  lemma {:induction false} NoSeparatorUntouched(alts: seq<string>, s: string, sep: char, redaction: string)
    requires sep !in s
    ensures Rendered(Scan(alts, s, sep), redaction, sep) == s
    decreases |s|
  {
    if s != [] {
      MatchNeedsSeparator(alts, s, sep);
      RenderedHead(alts, s, sep, redaction);
      assert sep !in s[1..] by { assert forall c :: c in s[1..] ==> c in s; }
      NoSeparatorUntouched(alts, s[1..], sep, redaction);
      assert [s[0]] + s[1..] == s;
    }
  }

  /** Text without a separator after x cannot end a value that starts in x. */
  lemma {:induction false} ValueLengthIgnoresTail(x: string, y: string, sep: char)
    requires sep !in y
    ensures ValueLength(x + y, sep) == ValueLength(x, sep)
    decreases |x|
  {
    if x == [] {
      assert x + y == y;
    } else {
      assert (x + y)[0] == x[0];
      assert (x + y)[1..] == x[1..] + y;
      ValueLengthIgnoresTail(x[1..], y, sep);
    }
  }

  /** Appending text without a separator does not change one alternative's match, except that its rest grows. */
  lemma TryFieldIgnoresTail(f: string, x: string, y: string, sep: char)
    requires sep !in y
    ensures TryField(f, x + y, sep) ==
      match TryField(f, x, sep)
      case Some(m) => Some(m.(rest := m.rest + y))
      case None => None
  {
    var s := x + y;
    if f + "=" <= x {
      assert f + "=" <= s;
      var v := x[|f| + 1..];
      assert s[|f| + 1..] == v + y;
      ValueLengthIgnoresTail(v, y, sep);
      match ValueLength(v, sep)
      case Some(n) =>
        assert (v + y)[..n] == v[..n];
        assert (v + y)[n + 1..] == v[n + 1..] + y;
      case None =>
    } else if f + "=" <= s {
      var v := s[|f| + 1..];
      assert v == y[|f| + 1 - |x|..];
      assert sep !in v by {
        assert forall c :: c in y[|f| + 1 - |x|..] ==> c in y;
      }
    }
  }

  /** Appending text without a separator does not change the match at the front, except that its rest grows. */
  lemma {:induction false} MatchAtIgnoresTail(alts: seq<string>, x: string, y: string, sep: char)
    requires sep !in y
    ensures MatchAt(alts, x + y, sep) ==
      match MatchAt(alts, x, sep)
      case Some(m) => Some(m.(rest := m.rest + y))
      case None => None
    decreases |alts|
  {
    if alts != [] {
      TryFieldIgnoresTail(alts[0], x, y, sep);
      MatchAtIgnoresTail(alts[1..], x, y, sep);
    }
  }

  lemma HeadIgnoresTail(alts: seq<string>, x: string, y: string, sep: char, redaction: string)
    requires sep !in y && x != []
    ensures HeadText(alts, x + y, sep, redaction) == HeadText(alts, x, sep, redaction)
    ensures Resume(alts, x + y, sep) == Resume(alts, x, sep) + y
  {
    MatchAtIgnoresTail(alts, x, y, sep);
    assert (x + y)[0] == x[0];
    assert (x + y)[1..] == x[1..] + y;
  }

  lemma {:induction false} ScanIgnoresTail(alts: seq<string>, x: string, y: string, sep: char, redaction: string)
    requires sep !in y
    ensures Rendered(Scan(alts, x + y, sep), redaction, sep) == Rendered(Scan(alts, x, sep), redaction, sep) + y
    decreases |x|
  {
    if x == [] {
      assert x + y == y;
      NoSeparatorUntouched(alts, y, sep, redaction);
    } else {
      var h, t := HeadText(alts, x, sep, redaction), Resume(alts, x, sep);
      ResumeShorter(alts, x, sep);
      calc {
        Rendered(Scan(alts, x + y, sep), redaction, sep);
      == { RenderedHead(alts, x + y, sep, redaction); HeadIgnoresTail(alts, x, y, sep, redaction); }
        h + Rendered(Scan(alts, t + y, sep), redaction, sep);
      == { ScanIgnoresTail(alts, t, y, sep, redaction); }
        h + (Rendered(Scan(alts, t, sep), redaction, sep) + y);
      ==
        (h + Rendered(Scan(alts, t, sep), redaction, sep)) + y;
      == { RenderedHead(alts, x, sep, redaction); }
        Rendered(Scan(alts, x, sep), redaction, sep) + y;
      }
    }
  }

  /**
   * A field occurrence with no separator anywhere after it is left as it is: when
   * the tail of a message holds no separator, that tail comes out unchanged.
   */
  lemma UnterminatedTailUntouched(fields: seq<string>, redaction: string, head: string, tail: string, separator: char)
    requires LiteralPattern(fields, separator) && separator !in tail
    ensures FilterDatum(fields, redaction, head + tail, separator) == FilterDatum(fields, redaction, head, separator) + tail
  {
    ScanIgnoresTail(Alternatives(fields), head, tail, separator, redaction);
  }

  /** A message in which no listed field is followed by '=' comes out unchanged. */
  lemma NoFieldAssignmentUntouched(fields: seq<string>, redaction: string, message: string, separator: char)
    requires LiteralPattern(fields, separator)
    requires forall i :: 0 <= i < |message| ==> NoAssignmentAt(Alternatives(fields), message[i..])
    ensures FilterDatum(fields, redaction, message, separator) == message
  {
    var alts := Alternatives(fields);
    assert NoAssignmentBefore(alts, message, |message|);
    ScanKeepsPrefix(alts, message, |message|, separator, redaction);
    assert message[..|message|] == message && message[|message|..] == [];
  }

  lemma {:induction false} ValueLengthOfValue(v: string, rest: string, sep: char)
    requires sep !in v && '\n' !in v
    ensures ValueLength(v + [sep] + rest, sep) == Some(|v|)
    decreases |v|
  {
    var s := v + [sep] + rest;
    if v != [] {
      assert s[0] == v[0] && v[0] in v;
      assert s[1..] == v[1..] + [sep] + rest;
      assert forall c :: c in v[1..] ==> c in v;
      ValueLengthOfValue(v[1..], rest, sep);
    }
  }

  /** When a field is the only listed name whose assignment starts the text, the match is that field's. */
  lemma {:induction false} OnlyCandidateMatches(alts: seq<string>, f: string, v: string, rest: string, sep: char)
    requires f in alts && sep !in v && '\n' !in v
    requires forall g :: g in alts && g + "=" <= f + "=" + v + [sep] + rest ==> g == f
    ensures MatchAt(alts, f + "=" + v + [sep] + rest, sep) == Some(Match(f, v, rest))
    decreases |alts|
  {
    var s := f + "=" + v + [sep] + rest;
    if alts[0] == f {
      assert f + "=" <= s;
      var w := s[|f| + 1..];
      assert w == v + [sep] + rest;
      ValueLengthOfValue(v, rest, sep);
      assert w[..|v|] == v && w[|v| + 1..] == rest;
    } else {
      assert alts[0] in alts;
      OnlyCandidateMatches(alts[1..], f, v, rest, sep);
    }
  }

  /**
   * Each occurrence of a listed field, '=', a value free of separators and line
   * breaks, and a separator is rewritten to the field, '=', the redaction and the
   * separator; scanning goes on after it, so the inserted text is never rescanned.
   */
  lemma OccurrenceRedacted(fields: seq<string>, redaction: string, field: string, value: string,
                           rest: string, separator: char)
    requires LiteralPattern(fields, separator)
    requires field in fields && separator !in value && '\n' !in value
    requires forall g :: g in fields && g + "=" <= field + "=" + value + [separator] + rest ==> g == field
    ensures FilterDatum(fields, redaction, field + "=" + value + [separator] + rest, separator) ==
      field + "=" + redaction + [separator] + FilterDatum(fields, redaction, rest, separator)
  {
    var s := field + "=" + value + [separator] + rest;
    OnlyCandidateMatches(fields, field, value, rest, separator);
    RenderedHead(fields, s, separator, redaction);
  }

  /** No listed field followed by '=' starts the text. */
  predicate NoAssignmentAt(alts: seq<string>, s: string) {
    forall f :: f in alts ==> !(f + "=" <= s)
  }

  lemma NoAssignmentNoMatch(alts: seq<string>, s: string, sep: char)
    requires NoAssignmentAt(alts, s)
    ensures MatchAt(alts, s, sep).None?
  {
  }

  /** A character where no assignment starts is copied and the scan resumes right after it. */
  lemma ScanCopiesUnmatched(alts: seq<string>, s: string, sep: char, redaction: string)
    requires |s| > 0 && NoAssignmentAt(alts, s)
    ensures Rendered(Scan(alts, s, sep), redaction, sep) == [s[0]] + Rendered(Scan(alts, s[1..], sep), redaction, sep)
  {
    NoAssignmentNoMatch(alts, s, sep);
    RenderedHead(alts, s, sep, redaction);
    assert HeadText(alts, s, sep, redaction) == [s[0]];
    assert Resume(alts, s, sep) == s[1..];
  }

  /** No assignment of a listed field starts at any of the first n positions of s. */
  predicate NoAssignmentBefore(alts: seq<string>, s: string, n: nat)
    requires n <= |s|
  {
    forall i :: 0 <= i < n ==> NoAssignmentAt(alts, s[i..])
  }

  lemma {:induction false} ScanKeepsPrefix(alts: seq<string>, s: string, n: nat, sep: char, redaction: string)
    requires n <= |s| && NoAssignmentBefore(alts, s, n)
    ensures Rendered(Scan(alts, s, sep), redaction, sep) == s[..n] + Rendered(Scan(alts, s[n..], sep), redaction, sep)
    decreases n
  {
    if n == 0 {
      assert s[..0] == [] && s[0..] == s;
    } else {
      var t := s[1..];
      var rest := Rendered(Scan(alts, s[n..], sep), redaction, sep);
      assert Rendered(Scan(alts, s, sep), redaction, sep) == [s[0]] + Rendered(Scan(alts, t, sep), redaction, sep) by {
        assert s[0..] == s;
        ScanCopiesUnmatched(alts, s, sep, redaction);
      }
      assert Rendered(Scan(alts, t, sep), redaction, sep) == t[..n - 1] + rest by {
        forall i | 0 <= i < n - 1 ensures NoAssignmentAt(alts, t[i..]) {
          assert t[i..] == s[i + 1..];
        }
        ScanKeepsPrefix(alts, t, n - 1, sep, redaction);
        assert t[n - 1..] == s[n..];
      }
      FirstAndPrefix(s, n);
      Regroup(Rendered(Scan(alts, s, sep), redaction, sep), Rendered(Scan(alts, t, sep), redaction, sep),
              [s[0]], t[..n - 1], s[..n], rest);
    }
  }

  /** Sequence identity kept out of ScanKeepsPrefix so that its proof stays small. */
  lemma FirstAndPrefix(s: string, n: nat)
    requires 0 < n <= |s|
    ensures [s[0]] + s[1..][..n - 1] == s[..n]
  {
  }

  /** Two steps of a rendering regrouped into one. */
  lemma Regroup(whole: string, part: string, c: string, p: string, q: string, rest: string)
    requires whole == c + part && part == p + rest && c + p == q
    ensures whole == q + rest
  {
    assert c + (p + rest) == (c + p) + rest;
  }

  /** Text in which no listed field's assignment starts is copied, and the rest filtered on its own. */
  lemma FilterKeepsPrefix(fields: seq<string>, redaction: string, head: string, tail: string, separator: char)
    requires LiteralPattern(fields, separator)
    requires forall i :: 0 <= i < |head| ==> NoAssignmentAt(Alternatives(fields), (head + tail)[i..])
    ensures FilterDatum(fields, redaction, head + tail, separator) == head + FilterDatum(fields, redaction, tail, separator)
  {
    var s := head + tail;
    assert NoAssignmentBefore(Alternatives(fields), s, |head|);
    ScanKeepsPrefix(Alternatives(fields), s, |head|, separator, redaction);
    assert s[..|head|] == head && s[|head|..] == tail;
  }

  /**
   * With one field, a message made of text in which the field's first letter does not
   * occur, then one assignment to the field, comes back with only that value redacted.
   */
  lemma SingleFieldRedacted(field: string, redaction: string, head: string, value: string, separator: char)
    requires LiteralPattern([field], separator) && |field| > 0
    requires field[0] !in head && separator !in value && '\n' !in value
    ensures FilterDatum([field], redaction, head + field + "=" + value + [separator], separator) ==
      head + field + "=" + redaction + [separator]
  {
    var fields := [field];
    var tail := field + "=" + value + [separator];
    var redacted := field + "=" + redaction + [separator];
    assert FilterDatum(fields, redaction, tail, separator) == redacted by {
      assert tail == field + "=" + value + [separator] + "";
      OccurrenceRedacted(fields, redaction, field, value, "", separator);
      assert FilterDatum(fields, redaction, "", separator) == "";
    }
    assert FilterDatum(fields, redaction, head + tail, separator) == head + FilterDatum(fields, redaction, tail, separator) by {
      forall i | 0 <= i < |head| ensures NoAssignmentAt(Alternatives(fields), (head + tail)[i..]) {
        assert (head + tail)[i..][0] == head[i] != field[0];
      }
      FilterKeepsPrefix(fields, redaction, head, tail, separator);
    }
    Grouping(head, field, value, separator);
    Grouping(head, field, redaction, separator);
  }

  /** Sequence identity kept out of SingleFieldRedacted so that its proof stays small. */
  lemma Grouping(head: string, field: string, value: string, separator: char)
    ensures head + field + "=" + value + [separator] == head + (field + "=" + value + [separator])
  {
  }

  /** The documented example. */
  lemma PasswordExample()
    ensures FilterDatum(["password"], "***", "name=Bob;password=secret;", ';') == "name=Bob;password=***;"
  {
    assert LiteralPattern(["password"], ';');
    assert "name=Bob;password=secret;" == "name=Bob;" + "password" + "=" + "secret" + [';'];
    assert "name=Bob;" + "password" + "=" + "***" + [';'] == "name=Bob;password=***;";
    SingleFieldRedacted("password", "***", "name=Bob;", "secret", ';');
  }

  /** Field names match anywhere, not only at the start of a key: "name" rewrites the value of "username". */
  lemma FieldMatchedInsideKey()
    ensures FilterDatum(["name"], "***", "username=x;", ';') == "username=***;"
  {
    assert LiteralPattern(["name"], ';');
    assert "username=x;" == "user" + "name" + "=" + "x" + [';'];
    assert "user" + "name" + "=" + "***" + [';'] == "username=***;";
    SingleFieldRedacted("name", "***", "user", "x", ';');
  }
}
