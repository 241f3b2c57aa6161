/** Per-student filenames rendered from one declared pattern. */
module FilenameTemplate {
  import opened Options

  const MISSING := "UNKNOWN"

  predicate IsAlnum(c: char) { 'A' <= c <= 'Z' || 'a' <= c <= 'z' || '0' <= c <= '9' }

  predicate IsSeparator(c: char) { c == '_' || c == '.' || c == '-' }

  predicate IsFileChar(c: char) { IsAlnum(c) || IsSeparator(c) }

  predicate AllAlnum(s: string) { forall i :: 0 <= i < |s| ==> IsAlnum(s[i]) }

  predicate NoDotDot(s: string) { forall i, j :: 0 <= i && j == i + 1 < |s| ==> !(s[i] == '.' && s[j] == '.') }

  /** `^(?!.*\.\.)[A-Za-z0-9_.-]+$` */
  predicate IsSafeFilename(s: string) { s != [] && NoDotDot(s) && forall i :: 0 <= i < |s| ==> IsFileChar(s[i]) }

  // ---------- tokens ----------

  datatype Token = MSSV | TEN | PHONG | SOMAY

  function Name(t: Token): string {
    match t case MSSV => "MSSV" case TEN => "TEN" case PHONG => "PHONG" case SOMAY => "SOMAY"
  }

  function Braced(t: Token): string { "{" + Name(t) + "}" }

  /** Context values after decomposition and removal of combining marks. */
  datatype Context = Context(studentMssv: string, studentName: string, roomName: string, machineName: Option<string>)

  // ---------- normalising a value ----------

  function PlainD(c: char): char { if c == '\U{0111}' then 'd' else if c == '\U{0110}' then 'D' else c }

  function ToUpper(c: char): char { if 'a' <= c <= 'z' then ((c as int) - 32) as char else c }

  function SkipForeign(s: string): string { if s != [] && !IsAlnum(s[0]) then SkipForeign(s[1..]) else s }

  lemma {:induction false} SkipForeignShortens(s: string)
    ensures |SkipForeign(s)| <= |s|
    ensures SkipForeign(s) != [] ==> IsAlnum(SkipForeign(s)[0])
  {
    if s != [] && !IsAlnum(s[0]) { SkipForeignShortens(s[1..]); }
  }

  /** Runs of other characters vanish; the character after one is capitalised. */
  function DropForeign(s: string): string
    decreases |s|
  {
    if s == [] then []
    else if IsAlnum(s[0]) then [s[0]] + DropForeign(s[1..])
    else
      SkipForeignShortens(s[1..]);
      var rest := SkipForeign(s[1..]);
      if rest == [] then [] else [ToUpper(rest[0])] + DropForeign(rest[1..])
  }

  function Normalize(value: string): string {
    var stripped := DropForeign(seq(|value|, i requires 0 <= i < |value| => PlainD(value[i])));
    if stripped == [] then MISSING else stripped
  }

  lemma {:induction false} DropForeignAlnum(s: string)
    ensures AllAlnum(DropForeign(s))
    ensures AllAlnum(s) ==> DropForeign(s) == s
    decreases |s|
  {
    if s != [] {
      if IsAlnum(s[0]) {
        DropForeignAlnum(s[1..]);
      } else {
        SkipForeignShortens(s[1..]);
        var rest := SkipForeign(s[1..]);
        if rest != [] { DropForeignAlnum(rest[1..]); }
      }
    }
  }

  /** A value always becomes letters and digits, at least one; a value that already is stays as it is. */
  lemma NormalizeAlnum(value: string)
    ensures Normalize(value) != [] && AllAlnum(Normalize(value))
    ensures value != [] && AllAlnum(value) ==> Normalize(value) == value
  {
    var plain := seq(|value|, i requires 0 <= i < |value| => PlainD(value[i]));
    DropForeignAlnum(plain);
    if AllAlnum(value) { assert plain == value; }
  }

  // ---------- rendering ----------

  predicate IsTokenChar(c: char) { 'A' <= c <= 'Z' || c == '_' }

  function LeadingTokenChars(s: string): string {
    if s != [] && IsTokenChar(s[0]) then [s[0]] + LeadingTokenChars(s[1..]) else []
  }

  lemma {:induction false} LeadingIsPrefix(s: string)
    ensures LeadingTokenChars(s) <= s
  {
    if s != [] && IsTokenChar(s[0]) { LeadingIsPrefix(s[1..]); }
  }

  /** The token name when `{name}` stands at the front of `s`. */
  function TokenAtFront(s: string): Option<string> {
    if s == [] || s[0] != '{' then None
    else
      var name := LeadingTokenChars(s[1..]);
      if name != [] && |name| + 1 < |s| && s[|name| + 1] == '}' then Some(name) else None
  }

  predicate IsTemplated(s: string) { s != [] && (TokenAtFront(s).Some? || IsTemplated(s[1..])) }

  function ValueFor(t: Token, c: Context): string {
    match t
    case MSSV => Normalize(c.studentMssv)
    case TEN => Normalize(c.studentName)
    case PHONG => Normalize(c.roomName)
    case SOMAY => if c.machineName.Some? && c.machineName.value != [] then Normalize(c.machineName.value) else MISSING
  }

  function ValueForName(name: string, c: Context): string {
    if name == Name(MSSV) then ValueFor(MSSV, c)
    else if name == Name(TEN) then ValueFor(TEN, c)
    else if name == Name(PHONG) then ValueFor(PHONG, c)
    else if name == Name(SOMAY) then ValueFor(SOMAY, c)
    else MISSING
  }

  function Substitute(s: string, c: Context): string
    decreases |s|
  {
    if s == [] then []
    else
      var token := TokenAtFront(s);
      if token.Some? then ValueForName(token.value, c) + Substitute(s[|token.value| + 2..], c)
      else [s[0]] + Substitute(s[1..], c)
  }

  function RenderFilename(declared: string, c: Context): string {
    if !IsTemplated(declared) then declared
    else
      var rendered := Substitute(declared, c);
      if IsSafeFilename(rendered) then rendered else MISSING
  }

  // ---------- the template grammar ----------

  datatype Piece = Lit(c: char) | Tok(t: Token)

  function Unparse(p: seq<Piece>): string {
    if p == [] then []
    else (match p[0] case Lit(c) => [c] case Tok(t) => Braced(t)) + Unparse(p[1..])
  }

  ghost predicate LiteralsOk(p: seq<Piece>) { forall i :: 0 <= i < |p| && p[i].Lit? ==> IsFileChar(p[i].c) }

  predicate StartsWith(s: string, t: Token) { Braced(t) <= s }

  /** `(?:[A-Za-z0-9_.-]|\{(?:MSSV|TEN|PHONG|SOMAY)\})*` */
  predicate Parses(s: string)
    decreases |s|
  {
    || s == []
    || (IsFileChar(s[0]) && Parses(s[1..]))
    || (exists t: Token :: StartsWith(s, t) && Parses(s[|Braced(t)|..]))
  }

  /** The template pattern the request validators accept. */
  predicate IsTemplate(s: string) { s != [] && NoDotDot(s) && Parses(s) }

  lemma {:induction false} ParsePieces(s: string) returns (p: seq<Piece>)
    requires Parses(s)
    ensures LiteralsOk(p) && Unparse(p) == s
    decreases |s|
  {
    if s == [] { return []; }
    if IsFileChar(s[0]) && Parses(s[1..]) {
      var rest := ParsePieces(s[1..]);
      p := [Lit(s[0])] + rest;
    } else {
      var t: Token :| StartsWith(s, t) && Parses(s[|Braced(t)|..]);
      var rest := ParsePieces(s[|Braced(t)|..]);
      p := [Tok(t)] + rest;
      assert s == Braced(t) + s[|Braced(t)|..];
    }
  }

  function RenderPieces(p: seq<Piece>, c: Context): string {
    if p == [] then []
    else (match p[0] case Lit(ch) => [ch] case Tok(t) => ValueFor(t, c)) + RenderPieces(p[1..], c)
  }

  lemma {:induction false} LeadingStops(name: string, rest: string)
    requires forall i :: 0 <= i < |name| ==> IsTokenChar(name[i])
    requires rest != [] && !IsTokenChar(rest[0])
    ensures LeadingTokenChars(name + rest) == name
  {
    if name == [] {
      assert name + rest == rest;
    } else {
      assert (name + rest)[1..] == name[1..] + rest;
      LeadingStops(name[1..], rest);
    }
  }

  lemma TokenIsFound(t: Token, rest: string)
    ensures TokenAtFront(Braced(t) + rest) == Some(Name(t))
    ensures (Braced(t) + rest)[|Name(t)| + 2..] == rest
  {
    var s := Braced(t) + rest;
    assert s[1..] == Name(t) + ("}" + rest);
    LeadingStops(Name(t), "}" + rest);
  }

  lemma SubstituteLiteral(ch: char, rest: string, c: Context)
    requires IsFileChar(ch)
    ensures Substitute([ch] + rest, c) == [ch] + Substitute(rest, c)
    ensures IsTemplated([ch] + rest) == IsTemplated(rest)
  {
    assert ([ch] + rest)[1..] == rest;
  }

  lemma SubstituteToken(t: Token, rest: string, c: Context)
    ensures Substitute(Braced(t) + rest, c) == ValueFor(t, c) + Substitute(rest, c)
    ensures IsTemplated(Braced(t) + rest)
  {
    TokenIsFound(t, rest);
    assert ValueForName(Name(t), c) == ValueFor(t, c);
  }

  /** On the grammar, substitution replaces exactly the declared tokens. */
  lemma {:induction false} SubstituteIsRender(p: seq<Piece>, c: Context)
    requires LiteralsOk(p)
    ensures Substitute(Unparse(p), c) == RenderPieces(p, c)
    ensures !IsTemplated(Unparse(p)) ==> RenderPieces(p, c) == Unparse(p)
  {
    if p != [] {
      SubstituteIsRender(p[1..], c);
      match p[0] {
        case Lit(ch) => SubstituteLiteral(ch, Unparse(p[1..]), c);
        case Tok(t) => SubstituteToken(t, Unparse(p[1..]), c);
      }
    }
  }

  // ---------- safety ----------

  lemma ValueAlnum(t: Token, c: Context)
    ensures ValueFor(t, c) != [] && AllAlnum(ValueFor(t, c))
  {
    NormalizeAlnum(c.studentMssv);
    NormalizeAlnum(c.studentName);
    NormalizeAlnum(c.roomName);
    if c.machineName.Some? { NormalizeAlnum(c.machineName.value); }
  }

  lemma NoDotDotJoin(a: string, b: string)
    requires NoDotDot(a) && NoDotDot(b)
    requires a == [] || b == [] || a[|a| - 1] != '.' || b[0] != '.'
    ensures NoDotDot(a + b)
  {
  }

  lemma NoDotDotTail(a: string, b: string)
    requires NoDotDot(a + b)
    ensures NoDotDot(b)
    ensures a != [] && b != [] ==> a[|a| - 1] != '.' || b[0] != '.'
  {
    forall i, j | 0 <= i && j == i + 1 < |b| ensures !(b[i] == '.' && b[j] == '.') {
      assert (a + b)[|a| + i] == b[i] && (a + b)[|a| + j] == b[j];
    }
    if a != [] && b != [] { assert (a + b)[|a| - 1] == a[|a| - 1] && (a + b)[|a|] == b[0]; }
  }

  lemma {:induction false} PiecesRenderSafely(p: seq<Piece>, c: Context)
    requires LiteralsOk(p) && NoDotDot(Unparse(p))
    ensures var r := RenderPieces(p, c);
            && NoDotDot(r) && (forall i :: 0 <= i < |r| ==> IsFileChar(r[i]))
            && (p != [] ==> r != [] && (r[0] == '.' ==> Unparse(p)[0] == '.'))
  {
    if p != [] {
      var head := match p[0] case Lit(ch) => [ch] case Tok(t) => Braced(t);
      NoDotDotTail(head, Unparse(p[1..]));
      PiecesRenderSafely(p[1..], c);
      match p[0] {
        case Lit(ch) =>
          assert Unparse(p)[0] == ch;
          NoDotDotJoin([ch], RenderPieces(p[1..], c));
        case Tok(t) =>
          ValueAlnum(t, c);
          NoDotDotJoin(ValueFor(t, c), RenderPieces(p[1..], c));
      }
    }
  }

  /**
   * Every accepted declaration renders, for every context, to a safe filename, and the final fallback is never
   * taken: the result is the declaration with its tokens replaced.
   */
  lemma RenderingIsSafe(declared: string, c: Context)
    requires IsTemplate(declared)
    ensures IsSafeFilename(RenderFilename(declared, c))
    ensures RenderFilename(declared, c) == Substitute(declared, c)
  {
    var p := ParsePieces(declared);
    SubstituteIsRender(p, c);
    PiecesRenderSafely(p, c);
  }

  /** An accepted declaration renders to its pieces. */
  lemma RendersPieces(declared: string, p: seq<Piece>, c: Context)
    requires IsTemplate(declared) && LiteralsOk(p) && declared == Unparse(p)
    ensures RenderFilename(declared, c) == RenderPieces(p, c)
  {
    RenderingIsSafe(declared, c);
    SubstituteIsRender(p, c);
  }

  // ---------- telling students apart ----------

  function Separators(s: string): nat {
    if s == [] then 0 else Separators(s[..|s| - 1]) + (if IsSeparator(s[|s| - 1]) then 1 else 0)
  }

  lemma {:induction false} SeparatorsJoin(a: string, b: string)
    ensures Separators(a + b) == Separators(a) + Separators(b)
  {
    if b == [] {
      assert a + b == a;
    } else {
      assert (a + b)[..|a + b| - 1] == a + b[..|b| - 1];
      SeparatorsJoin(a, b[..|b| - 1]);
    }
  }

  lemma {:induction false} AlnumHasNoSeparators(s: string)
    requires AllAlnum(s)
    ensures Separators(s) == 0
  {
    if s != [] { AlnumHasNoSeparators(s[..|s| - 1]); }
  }

  ghost predicate EndsAtSeparator(s: string) { s == [] || IsSeparator(s[|s| - 1]) }

  ghost predicate StartsAtSeparator(s: string) { s == [] || IsSeparator(s[0]) }

  /** A letters-and-digits prefix followed by a separator or the end is as long as it can be. */
  lemma SegmentEnds(s: string, y: string, s': string, y': string)
    requires s + y == s' + y' && AllAlnum(s') && StartsAtSeparator(y)
    ensures |s'| <= |s|
  {
    assert forall i :: 0 <= i < |s'| ==> (s + y)[i] == s'[i];
    assert y != [] ==> (s + y)[|s|] == y[0];
    assert |s + y| == |s' + y'|;
  }

  /** Equal strings cut at the same separator on the left and at the next one on the right have equal middles. */
  lemma SameSegment(x: string, s: string, y: string, x': string, s': string, y': string)
    requires x + s + y == x' + s' + y' && Separators(x) == Separators(x')
    requires EndsAtSeparator(x) && EndsAtSeparator(x') && StartsAtSeparator(y) && StartsAtSeparator(y')
    requires AllAlnum(s) && AllAlnum(s')
    ensures s == s'
  {
    var w := x + s + y;
    assert x == w[..|x|] && x' == w[..|x'|];
    if |x| < |x'| { NotBothEnds(x, x'); }
    if |x'| < |x| { NotBothEnds(x', x); }
    assert |x| == |x'|;
    assert w[|x|..] == s + y && w[|x|..] == s' + y';
    SegmentEnds(s, y, s', y');
    SegmentEnds(s', y', s, y);
    assert s == w[|x|..][..|s|] && s' == w[|x|..][..|s|];
  }

  lemma NotBothEnds(x: string, longer: string)
    requires |x| < |longer| && x == longer[..|x|] && EndsAtSeparator(longer)
    ensures Separators(x) < Separators(longer)
  {
    var mid := longer[|x|..|longer| - 1];
    assert longer[..|longer| - 1] == x + mid;
    SeparatorsJoin(x, mid);
  }

  lemma {:induction false} RenderJoin(p: seq<Piece>, q: seq<Piece>, c: Context)
    ensures RenderPieces(p + q, c) == RenderPieces(p, c) + RenderPieces(q, c)
  {
    if p == [] {
      assert p + q == q;
    } else {
      assert (p + q)[1..] == p[1..] + q;
      RenderJoin(p[1..], q, c);
    }
  }

  /** Tokens render to no separator, so all students' names have them in the same number. */
  lemma {:induction false} SameSeparators(p: seq<Piece>, c: Context, d: Context)
    ensures Separators(RenderPieces(p, c)) == Separators(RenderPieces(p, d))
  {
    if p != [] {
      SameSeparators(p[1..], c, d);
      var h := match p[0] case Lit(ch) => [ch] case Tok(t) => ValueFor(t, c);
      var k := match p[0] case Lit(ch) => [ch] case Tok(t) => ValueFor(t, d);
      SeparatorsJoin(h, RenderPieces(p[1..], c));
      SeparatorsJoin(k, RenderPieces(p[1..], d));
      if p[0].Tok? {
        ValueAlnum(p[0].t, c);
        ValueAlnum(p[0].t, d);
        AlnumHasNoSeparators(h);
        AlnumHasNoSeparators(k);
      }
    }
  }

  /** A segment: no separator, the student id at least once, and no other token. */
  ghost predicate IsIdSegment(p: seq<Piece>) { OnlyIds(p) && Tok(MSSV) in p }

  ghost predicate OnlyIds(p: seq<Piece>) {
    forall i :: 0 <= i < |p| ==> if p[i].Lit? then IsAlnum(p[i].c) else p[i].t == MSSV
  }

  /** The declaration as pieces with an id segment cut out between separators or ends. */
  ghost predicate HasIdSegment(before: seq<Piece>, segment: seq<Piece>, after: seq<Piece>) {
    && IsIdSegment(segment)
    && (before == [] || (before[|before| - 1].Lit? && IsSeparator(before[|before| - 1].c)))
    && (after == [] || (after[0].Lit? && IsSeparator(after[0].c)))
  }

  lemma {:induction false} SegmentAlnum(p: seq<Piece>, c: Context)
    requires OnlyIds(p)
    ensures AllAlnum(RenderPieces(p, c))
  {
    if p != [] {
      SegmentAlnum(p[1..], c);
      if p[0].Tok? { ValueAlnum(p[0].t, c); }
    }
  }

  /** A longer id never makes a segment shorter, and makes it longer where the id occurs. */
  lemma {:induction false} LongerIdLongerSegment(p: seq<Piece>, c: Context, d: Context)
    requires OnlyIds(p) && |ValueFor(MSSV, c)| <= |ValueFor(MSSV, d)|
    ensures |RenderPieces(p, c)| <= |RenderPieces(p, d)|
    ensures Tok(MSSV) in p && |ValueFor(MSSV, c)| < |ValueFor(MSSV, d)| ==> |RenderPieces(p, c)| < |RenderPieces(p, d)|
  {
    if p != [] {
      LongerIdLongerSegment(p[1..], c, d);
      assert p == [p[0]] + p[1..];
    }
  }

  lemma {:induction false} SegmentTellsId(p: seq<Piece>, c: Context, d: Context)
    requires IsIdSegment(p) && RenderPieces(p, c) == RenderPieces(p, d)
    requires |ValueFor(MSSV, c)| == |ValueFor(MSSV, d)|
    ensures ValueFor(MSSV, c) == ValueFor(MSSV, d)
  {
    var r := RenderPieces(p, c);
    match p[0] {
      case Lit(ch) =>
        assert p == [p[0]] + p[1..];
        assert r[1..] == RenderPieces(p[1..], c) && r[1..] == RenderPieces(p[1..], d);
        SegmentTellsId(p[1..], c, d);
      case Tok(t) =>
        assert r[..|ValueFor(MSSV, c)|] == ValueFor(MSSV, c) && r[..|ValueFor(MSSV, c)|] == ValueFor(MSSV, d);
    }
  }

  lemma {:induction false} EdgesRender(p: seq<Piece>, c: Context)
    ensures (p == [] || (p[|p| - 1].Lit? && IsSeparator(p[|p| - 1].c))) ==> EndsAtSeparator(RenderPieces(p, c))
    ensures (p == [] || (p[0].Lit? && IsSeparator(p[0].c))) ==> StartsAtSeparator(RenderPieces(p, c))
  {
    if p != [] {
      var n := |p| - 1;
      assert p == p[..n] + [p[n]];
      RenderJoin(p[..n], [p[n]], c);
    }
  }

  /**
   * When {MSSV} stands in a separator-free segment with no other token, two different student ids never render
   * to the same name, whatever the rest of the two contexts is.
   */
  lemma DifferentIdsDifferentNames(declared: string, before: seq<Piece>, segment: seq<Piece>, after: seq<Piece>,
                                   c: Context, d: Context)
    requires declared == Unparse(before + segment + after) && IsTemplate(declared)
    requires LiteralsOk(before + segment + after) && HasIdSegment(before, segment, after)
    requires c.studentMssv != [] && AllAlnum(c.studentMssv) && d.studentMssv != [] && AllAlnum(d.studentMssv)
    requires c.studentMssv != d.studentMssv
    ensures RenderFilename(declared, c) != RenderFilename(declared, d)
  {
    RendersPieces(declared, before + segment + after, c);
    RendersPieces(declared, before + segment + after, d);
    NormalizeAlnum(c.studentMssv);
    NormalizeAlnum(d.studentMssv);
    if RenderFilename(declared, c) == RenderFilename(declared, d) {
      SegmentsAgree(before, segment, after, c, d);
      LongerIdLongerSegment(segment, if |c.studentMssv| <= |d.studentMssv| then c else d,
                            if |c.studentMssv| <= |d.studentMssv| then d else c);
      SegmentTellsId(segment, c, d);
    }
  }

  lemma SegmentsAgree(before: seq<Piece>, segment: seq<Piece>, after: seq<Piece>, c: Context, d: Context)
    requires HasIdSegment(before, segment, after)
    requires RenderPieces(before + segment + after, c) == RenderPieces(before + segment + after, d)
    ensures RenderPieces(segment, c) == RenderPieces(segment, d)
  {
    RenderThree(before, segment, after, c);
    RenderThree(before, segment, after, d);
    SameSeparators(before, c, d);
    EdgesRender(before, c);
    EdgesRender(before, d);
    EdgesRender(after, c);
    EdgesRender(after, d);
    SegmentAlnum(segment, c);
    SegmentAlnum(segment, d);
    SameSegment(RenderPieces(before, c), RenderPieces(segment, c), RenderPieces(after, c),
                RenderPieces(before, d), RenderPieces(segment, d), RenderPieces(after, d));
  }

  // ---------- when they cannot be told apart ----------

  function Ones(n: nat): string { if n == 0 then "" else Ones(n - 1) + "1" }

  lemma {:induction false} OnesJoin(m: nat, n: nat)
    ensures Ones(m) + Ones(n) == Ones(m + n)
  {
    if n == 0 {
      assert Ones(m) + Ones(0) == Ones(m);
    } else {
      OnesJoin(m, n - 1);
      assert Ones(m) + Ones(n) == Ones(m) + Ones(n - 1) + "1";
    }
  }

  lemma {:induction false} OnesShape(n: nat)
    ensures |Ones(n)| == n && AllAlnum(Ones(n))
  {
    if n > 0 { OnesShape(n - 1); }
  }

  /** A student whose id is `id` ones and whose other values are `other` ones. */
  function Unary(id: nat, other: nat): Context { Context(Ones(id), Ones(other), Ones(other), Some(Ones(other))) }

  ghost predicate OnlyTokens(p: seq<Piece>) { forall i :: 0 <= i < |p| ==> p[i].Tok? }

  ghost predicate OnlyLiterals(p: seq<Piece>) { forall i :: 0 <= i < |p| ==> p[i].Lit? }

  /** How often the id stands among the tokens, and how often another token does. */
  function Ids(p: seq<Piece>): nat { if p == [] then 0 else Ids(p[1..]) + (if p[0] == Tok(MSSV) then 1 else 0) }

  function Others(p: seq<Piece>): nat { if p == [] then 0 else Others(p[1..]) + (if p[0] == Tok(MSSV) then 0 else 1) }

  lemma UnaryValue(t: Token, id: nat, other: nat)
    requires id > 0 && other > 0
    ensures ValueFor(t, Unary(id, other)) == Ones(if t == MSSV then id else other)
  {
    OnesShape(id);
    OnesShape(other);
    NormalizeAlnum(Ones(id));
    NormalizeAlnum(Ones(other));
  }

  function Total(p: seq<Piece>, id: nat, other: nat): nat {
    if p == [] then 0 else (if p[0] == Tok(MSSV) then id else other) + Total(p[1..], id, other)
  }

  lemma {:induction false} UnaryRenders(p: seq<Piece>, id: nat, other: nat)
    requires OnlyTokens(p) && id > 0 && other > 0
    ensures RenderPieces(p, Unary(id, other)) == Ones(Total(p, id, other))
  {
    if p != [] {
      var c := Unary(id, other);
      UnaryRenders(p[1..], id, other);
      UnaryValue(p[0].t, id, other);
      assert RenderPieces(p, c) == ValueFor(p[0].t, c) + RenderPieces(p[1..], c);
      OnesJoin(if p[0].t == MSSV then id else other, Total(p[1..], id, other));
    }
  }

  lemma {:induction false} TotalIs(p: seq<Piece>, id: nat, other: nat)
    ensures Total(p, id, other) == Ids(p) * id + Others(p) * other
  {
    if p != [] {
      TotalIs(p[1..], id, other);
      OneTermMore(Ids(p[1..]), Others(p[1..]), id, other);
    }
  }

  lemma OneTermMore(m: nat, t: nat, id: nat, other: nat)
    ensures (m + 1) * id + t * other == id + (m * id + t * other)
    ensures m * id + (t + 1) * other == other + (m * id + t * other)
  {
  }

  lemma {:induction false} LiteralsRender(p: seq<Piece>, c: Context, d: Context)
    requires OnlyLiterals(p)
    ensures RenderPieces(p, c) == RenderPieces(p, d)
  {
    if p != [] { LiteralsRender(p[1..], c, d); }
  }

  lemma SameTotal(m: nat, t: nat)
    ensures m * (1 + t) + t * 1 == m * 1 + t * (1 + m)
  {
  }

  lemma TotalsAgree(p: seq<Piece>)
    ensures Total(p, 1 + Others(p), 1) == Total(p, 1, 1 + Ids(p))
  {
    TotalIs(p, 1 + Others(p), 1);
    TotalIs(p, 1, 1 + Ids(p));
    SameTotal(Ids(p), Others(p));
  }

  /** Two students no run of tokens can tell apart, if one of the tokens is not the id. */
  lemma SegmentCollides(p: seq<Piece>)
    requires OnlyTokens(p)
    ensures RenderPieces(p, Unary(1 + Others(p), 1)) == RenderPieces(p, Unary(1, 1 + Ids(p)))
  {
    var m, n := 1 + Others(p), 1 + Ids(p);
    UnaryRenders(p, m, 1);
    UnaryRenders(p, 1, n);
    TotalsAgree(p);
  }

  lemma RenderThree(before: seq<Piece>, segment: seq<Piece>, after: seq<Piece>, c: Context)
    ensures RenderPieces(before + segment + after, c) ==
            RenderPieces(before, c) + RenderPieces(segment, c) + RenderPieces(after, c)
  {
    RenderJoin(before + segment, after, c);
    RenderJoin(before, segment, c);
  }

  lemma SameRendering(before: seq<Piece>, segment: seq<Piece>, after: seq<Piece>, c: Context, d: Context)
    requires OnlyLiterals(before) && OnlyLiterals(after) && RenderPieces(segment, c) == RenderPieces(segment, d)
    ensures RenderPieces(before + segment + after, c) == RenderPieces(before + segment + after, d)
  {
    RenderThree(before, segment, after, c);
    RenderThree(before, segment, after, d);
    LiteralsRender(before, c, d);
    LiteralsRender(after, c, d);
  }

  /** Two different student ids and one name. */
  ghost predicate Collide(declared: string, c: Context, d: Context) {
    && c.studentMssv != "" && AllAlnum(c.studentMssv) && d.studentMssv != "" && AllAlnum(d.studentMssv)
    && c.studentMssv != d.studentMssv && RenderFilename(declared, c) == RenderFilename(declared, d)
  }

  lemma OneNameForBoth(declared: string, p: seq<Piece>, c: Context, d: Context)
    requires declared == Unparse(p) && IsTemplate(declared) && LiteralsOk(p) && RenderPieces(p, c) == RenderPieces(p, d)
    ensures RenderFilename(declared, c) == RenderFilename(declared, d)
  {
    RendersPieces(declared, p, c);
    RendersPieces(declared, p, d);
  }

  lemma UnaryIdsDiffer(m: nat, n: nat, other: nat, other': nat)
    requires 0 < m && 0 < n && m != n
    ensures var c, d := Unary(m, other).studentMssv, Unary(n, other').studentMssv;
            c != "" && AllAlnum(c) && d != "" && AllAlnum(d) && c != d
  {
    OnesShape(m);
    OnesShape(n);
  }

  /**
   * The condition is needed: whenever the only tokens stand in one run and one of them is not the id, there are
   * two students with different ids and one name, however often the id occurs.
   */
  lemma SharedSegmentCollides(declared: string, before: seq<Piece>, segment: seq<Piece>, after: seq<Piece>)
    returns (c: Context, d: Context)
    requires declared == Unparse(before + segment + after) && IsTemplate(declared)
    requires LiteralsOk(before + segment + after) && OnlyLiterals(before) && OnlyTokens(segment) && OnlyLiterals(after)
    requires Others(segment) > 0
    ensures Collide(declared, c, d)
  {
    c, d := Unary(1 + Others(segment), 1), Unary(1, 1 + Ids(segment));
    SegmentCollides(segment);
    SameRendering(before, segment, after, c, d);
    OneNameForBoth(declared, before + segment + after, c, d);
    UnaryIdsDiffer(1 + Others(segment), 1, 1, 1 + Ids(segment));
  }
}
