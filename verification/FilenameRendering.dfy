/** What a rendered name shows: the literals, each token's own field, and of a field its letters and digits. */
module FilenameRendering {
  import opened FilenameTemplate
  import opened Options

  // ---------- tokens and literals ----------

  /** Literals stand for themselves. */
  lemma {:induction false} LiteralsShow(p: seq<Piece>, c: Context)
    requires OnlyLiterals(p)
    ensures RenderPieces(p, c) == Unparse(p)
  {
    if p != [] { LiteralsShow(p[1..], c); }
  }

  /** What stands at a token's place. */
  lemma TokenPlace(declared: string, before: seq<Piece>, t: Token, after: seq<Piece>, c: Context, shown: string)
    requires IsTemplate(declared) && declared == Unparse(before + [Tok(t)] + after)
    requires LiteralsOk(before + [Tok(t)] + after)
    requires ValueFor(t, c) == shown
    ensures RenderFilename(declared, c) == RenderPieces(before, c) + shown + RenderPieces(after, c)
  {
    RendersPieces(declared, before + [Tok(t)] + after, c);
    RenderThree(before, [Tok(t)], after, c);
    OneToken(t, c);
  }

  lemma OneToken(t: Token, c: Context)
    ensures RenderPieces([Tok(t)], c) == ValueFor(t, c)
  {
    assert [Tok(t)][1..] == [];
    assert ValueFor(t, c) + "" == ValueFor(t, c);
  }

  ghost predicate IsPlain(value: string) { value != "" && AllAlnum(value) }

  /** {MSSV} shows the student's id, {TEN} the name, {PHONG} the room, {SOMAY} the machine or UNKNOWN. */
  lemma TokensShowTheirFields(c: Context)
    ensures IsPlain(c.studentMssv) ==> ValueFor(MSSV, c) == c.studentMssv
    ensures IsPlain(c.studentName) ==> ValueFor(TEN, c) == c.studentName
    ensures IsPlain(c.roomName) ==> ValueFor(PHONG, c) == c.roomName
    ensures c.machineName.Some? && IsPlain(c.machineName.value) ==> ValueFor(SOMAY, c) == c.machineName.value
    ensures c.machineName.None? || c.machineName.value == "" ==> ValueFor(SOMAY, c) == "UNKNOWN"
    ensures ValueFor(MSSV, c) == Normalize(c.studentMssv) && ValueFor(TEN, c) == Normalize(c.studentName)
    ensures ValueFor(PHONG, c) == Normalize(c.roomName)
  {
    NormalizeAlnum(c.studentMssv);
    NormalizeAlnum(c.studentName);
    NormalizeAlnum(c.roomName);
    if c.machineName.Some? { NormalizeAlnum(c.machineName.value); }
  }

  /** A declaration without braces is the name. */
  lemma {:induction false} NotTemplated(s: string)
    requires '{' !in s
    ensures !IsTemplated(s)
  {
    if s != "" { NotTemplated(s[1..]); }
  }

  lemma PlainIsKept(declared: string, c: Context)
    requires '{' !in declared
    ensures RenderFilename(declared, c) == declared
  {
    NotTemplated(declared);
  }

  /** Whatever a templated declaration is, the rendered name is safe. */
  lemma AlwaysSafe(declared: string, c: Context)
    requires IsTemplated(declared)
    ensures IsSafeFilename(RenderFilename(declared, c))
  {
  }

  /** A token that does not exist shows as UNKNOWN. */
  lemma UnknownToken(name: string, c: Context)
    requires name != "" && (forall i :: 0 <= i < |name| ==> IsTokenChar(name[i]))
    requires name != "MSSV" && name != "TEN" && name != "PHONG" && name != "SOMAY"
    ensures RenderFilename("{" + name + "}", c) == "UNKNOWN"
  {
    var s := "{" + name + "}";
    assert s[1..] == name + "}";
    LeadingStops(name, "}");
    assert TokenAtFront(s) == Some(name);
    assert s[|name| + 2..] == "";
    assert ValueForName(name, c) == MISSING;
    assert Substitute(s, c) == MISSING + "" == MISSING;
  }

  // ---------- fields ----------

  /** The longest runs of letters and digits, in order. */
  function Runs(s: string): (r: seq<string>)
    ensures s != "" && IsAlnum(s[0]) ==> r != [] && r[0] != ""
    ensures forall i :: 0 <= i < |r| ==> r[i] != ""
  {
    if s == "" then []
    else if !IsAlnum(s[0]) then Runs(s[1..])
    else if |s| > 1 && IsAlnum(s[1]) then [[s[0]] + Runs(s[1..])[0]] + Runs(s[1..])[1..]
    else [[s[0]]] + Runs(s[1..])
  }

  /** Runs put together, each with its first letter capitalised. */
  function Capitalized(runs: seq<string>): string
    requires forall i :: 0 <= i < |runs| ==> runs[i] != ""
  {
    if runs == [] then "" else [ToUpper(runs[0][0])] + runs[0][1..] + Capitalized(runs[1..])
  }

  /** The runs of a text; the one at its very beginning, if any, keeps its case. */
  function Shown(s: string): string {
    if s != "" && IsAlnum(s[0]) then Runs(s)[0] + Capitalized(Runs(s)[1..]) else Capitalized(Runs(s))
  }

  lemma {:induction false} RunsSkip(s: string)
    ensures Runs(SkipForeign(s)) == Runs(s)
  {
    if s != "" && !IsAlnum(s[0]) { RunsSkip(s[1..]); }
  }

  ghost predicate NoneEmpty(runs: seq<string>) { forall i :: 0 <= i < |runs| ==> runs[i] != "" }

  lemma Assoc(a: string, b: string, c: string)
    ensures a + (b + c) == (a + b) + c
  {
  }

  lemma LongerRun(c: char, runs: seq<string>)
    requires runs != [] && NoneEmpty(runs)
    ensures Capitalized([[c] + runs[0]] + runs[1..]) == [ToUpper(c)] + (runs[0] + Capitalized(runs[1..]))
  {
    var first, rest := [c] + runs[0], runs[1..];
    assert ([first] + rest)[1..] == rest && first[1..] == runs[0];
    Assoc([ToUpper(c)], runs[0], Capitalized(rest));
  }

  lemma NewRun(c: char, runs: seq<string>)
    requires NoneEmpty(runs)
    ensures Capitalized([[c]] + runs) == [ToUpper(c)] + Capitalized(runs)
  {
    assert ([[c]] + runs)[1..] == runs && [c][1..] == "";
    assert [ToUpper(c)] + "" == [ToUpper(c)];
  }

  /** A letter or digit in front extends what is shown, capitalised or not. */
  lemma ShownCons(s: string)
    requires s != "" && IsAlnum(s[0])
    ensures Shown(s) == [s[0]] + Shown(s[1..])
    ensures Capitalized(Runs(s)) == [ToUpper(s[0])] + Shown(s[1..])
  {
    var rest := Runs(s[1..]);
    if |s| > 1 && IsAlnum(s[1]) {
      LongerRun(s[0], rest);
      assert Runs(s)[1..] == rest[1..];
      Assoc([s[0]], rest[0], Capitalized(rest[1..]));
    } else {
      NewRun(s[0], rest);
      assert Runs(s)[1..] == rest;
    }
  }

  lemma {:induction false} DropForeignShows(s: string)
    ensures DropForeign(s) == Shown(s)
    decreases |s|
  {
    if s != "" {
      if IsAlnum(s[0]) {
        DropForeignShows(s[1..]);
        ShownCons(s);
      } else {
        SkipForeignShortens(s[1..]);
        var rest := SkipForeign(s[1..]);
        RunsSkip(s[1..]);
        if rest != "" {
          DropForeignShows(rest[1..]);
          ShownCons(rest);
        }
      }
    }
  }

  /** The barred letters, which do not decompose, lose their bar. */
  function Unbarred(value: string): string { seq(|value|, i requires 0 <= i < |value| => PlainD(value[i])) }

  /** A field shows its runs of letters and digits, capitalised but for a first one at its beginning. */
  lemma NormalizeShows(value: string)
    ensures Normalize(value) == if Shown(Unbarred(value)) == "" then "UNKNOWN" else Shown(Unbarred(value))
  {
    DropForeignShows(Unbarred(value));
    assert Unbarred(value) == seq(|value|, i requires 0 <= i < |value| => PlainD(value[i]));
  }

  lemma LettersMean(c: char)
    ensures 'a' <= c <= 'z' ==> 'A' <= ToUpper(c) <= 'Z' && ToUpper(c) as int - 'A' as int == c as int - 'a' as int
    ensures !('a' <= c <= 'z') ==> ToUpper(c) == c
    ensures PlainD('\U{0111}') == 'd' && PlainD('\U{0110}') == 'D'
    ensures c != '\U{0111}' && c != '\U{0110}' ==> PlainD(c) == c
  {
  }
}
