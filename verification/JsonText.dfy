/** JSON values and the text `JSON.stringify` gives them. */
module JsonText {

  predicate IsNumberChar(c: char) { '0' <= c <= '9' || c in ['+', '-', '.', 'e'] }

  /** How JavaScript prints a finite number. */
  type NumberText = s: string | s != "" && forall i :: 0 <= i < |s| ==> IsNumberChar(s[i]) witness "0"

  datatype Json =
    | Null
    | Bool(b: bool)
    | Number(text: NumberText)
    | Text(s: string)
    | Array(items: seq<Json>)
    | Object(members: seq<Member>)

  datatype Member = Member(name: string, value: Json)

  function HexDigit(n: nat): char
    requires n < 16
  {
    "0123456789abcdef"[n]
  }

  /** Control characters, quotes and backslashes never stand for themselves (section 7 of RFC 8259). */
  function QuoteChar(c: char): string {
    if c == '\"' then "\\\""
    else if c == '\\' then "\\\\"
    else if c == '\U{8}' then "\\b"
    else if c == '\t' then "\\t"
    else if c == '\n' then "\\n"
    else if c == '\U{C}' then "\\f"
    else if c == '\r' then "\\r"
    else if c < ' ' then "\\u00" + [HexDigit(c as int / 16), HexDigit(c as int % 16)]
    else [c]
  }

  function QuoteChars(s: string): string {
    if s == "" then "" else QuoteChar(s[0]) + QuoteChars(s[1..])
  }

  function Quote(s: string): string { "\"" + QuoteChars(s) + "\"" }

  function Stringify(j: Json): string
    decreases j
  {
    match j
    case Null => "null"
    case Bool(b) => if b then "true" else "false"
    case Number(text) => text
    case Text(s) => Quote(s)
    case Array(items) => "[" + StringifyItems(j, items, true) + "]"
    case Object(members) => "{" + StringifyMembers(j, members, true) + "}"
  }

  /** The items from the first on, or from a later one on with a comma before it. */
  function StringifyItems(parent: Json, items: seq<Json>, first: bool): string
    requires forall i :: 0 <= i < |items| ==> items[i] < parent
    decreases parent, |items|
  {
    if items == [] then ""
    else (if first then "" else ",") + Stringify(items[0]) + StringifyItems(parent, items[1..], false)
  }

  function StringifyMembers(parent: Json, members: seq<Member>, first: bool): string
    requires forall i :: 0 <= i < |members| ==> members[i].value < parent
    decreases parent, |members|
  {
    if members == [] then ""
    else
      var m := members[0];
      var rest := StringifyMembers(parent, members[1..], false);
      (if first then "" else ",") + Quote(m.name) + ":" + Stringify(m.value) + rest
  }

  ghost predicate NewlineFree(s: string) { '\n' !in s }

  lemma QuotedCharIsNewlineFree(c: char)
    ensures NewlineFree(QuoteChar(c))
  {
  }

  lemma {:induction false} QuotedIsNewlineFree(s: string)
    ensures NewlineFree(QuoteChars(s)) && NewlineFree(Quote(s))
  {
    if s != "" {
      QuotedCharIsNewlineFree(s[0]);
      QuotedIsNewlineFree(s[1..]);
    }
  }

  /** Whatever strings a message carries, its JSON text has no raw newline. */
  lemma {:induction false} JsonIsNewlineFree(j: Json)
    ensures NewlineFree(Stringify(j))
    decreases j
  {
    match j {
      case Text(s) => QuotedIsNewlineFree(s);
      case Array(items) => ItemsAreNewlineFree(j, items, true);
      case Object(members) => MembersAreNewlineFree(j, members, true);
      case _ =>
    }
  }

  lemma {:induction false} ItemsAreNewlineFree(parent: Json, items: seq<Json>, first: bool)
    requires forall i :: 0 <= i < |items| ==> items[i] < parent
    ensures NewlineFree(StringifyItems(parent, items, first))
    decreases parent, |items|
  {
    if items != [] {
      JsonIsNewlineFree(items[0]);
      ItemsAreNewlineFree(parent, items[1..], false);
    }
  }

  lemma {:induction false} MembersAreNewlineFree(parent: Json, members: seq<Member>, first: bool)
    requires forall i :: 0 <= i < |members| ==> members[i].value < parent
    ensures NewlineFree(StringifyMembers(parent, members, first))
    decreases parent, |members|
  {
    if members != [] {
      QuotedIsNewlineFree(members[0].name);
      JsonIsNewlineFree(members[0].value);
      MembersAreNewlineFree(parent, members[1..], false);
    }
  }

  // ---------- the notation ----------

  /** The names of the constants. */
  lemma Constants()
    ensures Stringify(Null) == "null" && Stringify(Bool(true)) == "true" && Stringify(Bool(false)) == "false"
    ensures Stringify(Array([])) == "[]" && Stringify(Object([])) == "{}"
  {
  }

  lemma OneItem(parent: Json, a: Json, first: bool)
    requires a < parent
    ensures StringifyItems(parent, [a], first) == (if first then "" else ",") + Stringify(a)
  {
    assert [a][1..] == [];
    assert (if first then "" else ",") + Stringify(a) + "" == (if first then "" else ",") + Stringify(a);
  }

  /** Items stand between brackets, separated by commas. */
  lemma ArrayNotation(a: Json, b: Json)
    ensures Stringify(Array([a, b])) == "[" + (Stringify(a) + ("," + Stringify(b))) + "]"
  {
    var two := Array([a, b]);
    assert two.items[0] == a && two.items[1] == b;
    assert [a, b][1..] == [b];
    OneItem(two, b, false);
    assert "" + Stringify(a) == Stringify(a);
  }

  lemma OneMember(parent: Json, m: Member, first: bool)
    requires m.value < parent
    ensures StringifyMembers(parent, [m], first) ==
              (if first then "" else ",") + Quote(m.name) + ":" + Stringify(m.value)
  {
    var text := (if first then "" else ",") + Quote(m.name) + ":" + Stringify(m.value);
    assert [m][1..] == [];
    assert text + "" == text;
  }

  /** Members stand between braces, each a quoted name, a colon and a value, separated by commas. */
  lemma ObjectNotation(m: Member, n: Member)
    ensures Stringify(Object([m, n])) ==
            "{" + (Quote(m.name) + ":" + Stringify(m.value) + ("," + Quote(n.name) + ":" + Stringify(n.value))) + "}"
  {
    var two := Object([m, n]);
    assert two.members[0] == m && two.members[1] == n;
    assert [m, n][1..] == [n];
    OneMember(two, n, false);
    assert "" + Quote(m.name) == Quote(m.name);
  }

  /** The value of a hexadecimal digit. */
  function HexValue(c: char): nat {
    if '0' <= c <= '9' then c as int - '0' as int
    else if 'a' <= c <= 'f' then c as int - 'a' as int + 10
    else if 'A' <= c <= 'F' then c as int - 'A' as int + 10
    else 0
  }

  /** The character a short escape stands for (section 7 of RFC 8259). */
  function ShortEscape(c: char): char {
    match c
    case 'b' => '\U{8}'
    case 'f' => '\U{C}'
    case 'n' => '\U{A}'
    case 'r' => '\U{D}'
    case 't' => '\U{9}'
    case _ => c
  }

  /** Reading the inside of a quoted string, escapes below 256 being all that quoting writes. */
  function Unquoted(t: string): string
    decreases |t|
  {
    if t == "" then ""
    else if t[0] != '\\' || |t| < 2 then [t[0]] + Unquoted(t[1..])
    else if t[1] != 'u' || |t| < 6 then [ShortEscape(t[1])] + Unquoted(t[2..])
    else [(16 * HexValue(t[4]) + HexValue(t[5])) as char] + Unquoted(t[6..])
  }

  /** Escapes use lower-case digits. */
  lemma HexIsValue(n: nat)
    requires n < 16
    ensures HexValue(HexDigit(n)) == n && ('0' <= HexDigit(n) <= '9' || 'a' <= HexDigit(n) <= 'f')
  {
  }

  lemma UnquotedChar(c: char, rest: string)
    ensures Unquoted(QuoteChar(c) + rest) == [c] + Unquoted(rest)
  {
    var q := QuoteChar(c);
    var t := q + rest;
    if q[0] != '\\' {
      assert t[1..] == rest;
    } else if q[1] != 'u' {
      assert t[2..] == rest;
    } else {
      HexIsValue(c as int / 16);
      HexIsValue(c as int % 16);
      assert t[4] == HexDigit(c as int / 16) && t[5] == HexDigit(c as int % 16);
      assert t[6..] == rest;
    }
  }

  /** What was quoted reads back as it was. */
  lemma {:induction false} QuotedReadsBack(s: string)
    ensures Unquoted(QuoteChars(s)) == s
  {
    if s != "" {
      QuotedReadsBack(s[1..]);
      UnquotedChar(s[0], QuoteChars(s[1..]));
    }
  }

  // ---------- the same text with what follows it ----------

  function CharsThen(s: string, x: string): string {
    if s == "" then "\"" + x else QuoteChar(s[0]) + CharsThen(s[1..], x)
  }

  function Then(j: Json, x: string): string
    decreases j
  {
    match j
    case Null => "null" + x
    case Bool(b) => (if b then "true" else "false") + x
    case Number(text) => text + x
    case Text(s) => "\"" + CharsThen(s, x)
    case Array(items) => "[" + ItemsThen(j, items, true, x)
    case Object(members) => "{" + MembersThen(j, members, true, x)
  }

  function ItemsThen(parent: Json, items: seq<Json>, first: bool, x: string): string
    requires forall i :: 0 <= i < |items| ==> items[i] < parent
    decreases parent, |items|
  {
    if items == [] then "]" + x
    else
      var rest := Then(items[0], ItemsThen(parent, items[1..], false, x));
      if first then rest else "," + rest
  }

  function MembersThen(parent: Json, members: seq<Member>, first: bool, x: string): string
    requires forall i :: 0 <= i < |members| ==> members[i].value < parent
    decreases parent, |members|
  {
    if members == [] then "}" + x
    else
      var value := Then(members[0].value, MembersThen(parent, members[1..], false, x));
      var rest := "\"" + CharsThen(members[0].name, ":" + value);
      if first then rest else "," + rest
  }

  lemma Assoc(a: string, b: string, c: string)
    ensures a + (b + c) == (a + b) + c
  {
  }

  lemma {:induction false} CharsThenIs(s: string, x: string)
    ensures CharsThen(s, x) == QuoteChars(s) + "\"" + x
  {
    if s != "" {
      CharsThenIs(s[1..], x);
      Assoc(QuoteChar(s[0]), QuoteChars(s[1..]) + "\"", x);
      Assoc(QuoteChar(s[0]), QuoteChars(s[1..]), "\"");
    }
  }

  lemma QuoteThenIs(s: string, x: string)
    ensures "\"" + CharsThen(s, x) == Quote(s) + x
  {
    CharsThenIs(s, x);
    Assoc("\"", QuoteChars(s) + "\"", x);
    Assoc("\"", QuoteChars(s), "\"");
  }

  lemma {:induction false} ThenIs(j: Json, x: string)
    ensures Then(j, x) == Stringify(j) + x
    decreases j
  {
    match j {
      case Text(s) => QuoteThenIs(s, x);
      case Array(items) =>
        ItemsThenIs(j, items, true, x);
        Assoc("[", StringifyItems(j, items, true) + "]", x);
        Assoc("[", StringifyItems(j, items, true), "]");
      case Object(members) =>
        MembersThenIs(j, members, true, x);
        Assoc("{", StringifyMembers(j, members, true) + "}", x);
        Assoc("{", StringifyMembers(j, members, true), "}");
      case _ =>
    }
  }

  lemma {:induction false} ItemsThenIs(parent: Json, items: seq<Json>, first: bool, x: string)
    requires forall i :: 0 <= i < |items| ==> items[i] < parent
    ensures ItemsThen(parent, items, first, x) == StringifyItems(parent, items, first) + "]" + x
    decreases parent, |items|
  {
    if items != [] {
      var rest := StringifyItems(parent, items[1..], false);
      ItemsThenIs(parent, items[1..], false, x);
      ThenIs(items[0], rest + "]" + x);
      Regroup(if first then "" else ",", Stringify(items[0]), rest, "]", x);
    }
  }

  lemma Regroup(a: string, b: string, c: string, d: string, x: string)
    ensures a + (b + (c + d + x)) == a + b + c + d + x
    ensures a == "" ==> b + (c + d + x) == a + b + c + d + x
  {
    Assoc(b, c + d, x);
    Assoc(b, c, d);
    Assoc(a, b + c + d, x);
    Assoc(a, b + c, d);
    Assoc(a, b, c);
    assert "" + b == b;
  }

  lemma {:induction false} MembersThenIs(parent: Json, members: seq<Member>, first: bool, x: string)
    requires forall i :: 0 <= i < |members| ==> members[i].value < parent
    ensures MembersThen(parent, members, first, x) == StringifyMembers(parent, members, first) + "}" + x
    decreases parent, |members|
  {
    if members != [] {
      var m, rest := members[0], StringifyMembers(parent, members[1..], false);
      var value := Stringify(m.value) + (rest + "}" + x);
      MembersThenIs(parent, members[1..], false, x);
      ThenIs(m.value, rest + "}" + x);
      QuoteThenIs(m.name, ":" + value);
      MemberRegroup(if first then "" else ",", Quote(m.name), Stringify(m.value), rest, x);
    }
  }

  lemma MemberRegroup(a: string, name: string, value: string, rest: string, x: string)
    ensures a + (name + (":" + (value + (rest + "}" + x)))) == a + name + ":" + value + rest + "}" + x
    ensures a == "" ==> name + (":" + (value + (rest + "}" + x))) == a + name + ":" + value + rest + "}" + x
  {
    Regroup(":", value, rest, "}", x);
    var v := ":" + value + rest + "}" + x;
    Assoc(a, name, v);
    Assoc(a + name, ":" + value + rest + "}", x);
    Assoc(a + name, ":" + value + rest, "}");
    Assoc(a + name, ":" + value, rest);
    Assoc(a + name, ":", value);
    assert "" + (name + v) == name + v;
  }

  // ---------- different values have different texts ----------

  /** Quoting is a prefix code that never begins with the closing quote. */
  lemma QuotedCharIsUnique(c: char, d: char, x: string, y: string)
    requires QuoteChar(c) + x == QuoteChar(d) + y
    ensures c == d && x == y
  {
    var w := QuoteChar(c) + x;
    assert w[0] == QuoteChar(c)[0] == QuoteChar(d)[0];
    if QuoteChar(c)[0] == '\\' {
      assert w[1] == QuoteChar(c)[1] == QuoteChar(d)[1];
      if QuoteChar(c)[1] == 'u' {
        assert w[4] == QuoteChar(c)[4] == QuoteChar(d)[4] && w[5] == QuoteChar(c)[5] == QuoteChar(d)[5];
        HexDigitIsUnique(c as int / 16, d as int / 16);
        HexDigitIsUnique(c as int % 16, d as int % 16);
      }
    }
    assert c == d;
    assert x == w[|QuoteChar(c)|..] && y == w[|QuoteChar(d)|..];
  }

  lemma HexDigitIsUnique(m: nat, n: nat)
    requires m < 16 && n < 16 && HexDigit(m) == HexDigit(n)
    ensures m == n
  {
  }

  lemma QuotedCharStart(c: char)
    ensures QuoteChar(c) != "" && QuoteChar(c)[0] != '\"'
  {
  }

  lemma TailsAgree(head: string, x: string, y: string)
    requires head + x == head + y
    ensures x == y
  {
    assert x == (head + x)[|head|..] && y == (head + y)[|head|..];
  }

  lemma {:induction false} CharsAreUnique(s: string, t: string, x: string, y: string)
    requires CharsThen(s, x) == CharsThen(t, y)
    ensures s == t && x == y
  {
    if s != "" { QuotedCharStart(s[0]); }
    if t != "" { QuotedCharStart(t[0]); }
    if s == "" || t == "" {
      assert CharsThen(s, x)[0] == CharsThen(t, y)[0];
      TailsAgree("\"", x, y);
    } else {
      QuotedCharIsUnique(s[0], t[0], CharsThen(s[1..], x), CharsThen(t[1..], y));
      CharsAreUnique(s[1..], t[1..], x, y);
      assert s == [s[0]] + s[1..] && t == [t[0]] + t[1..];
    }
  }

  /** What may follow a value. */
  ghost predicate EndsValue(x: string) { x == "" || x[0] == ',' || x[0] == ']' || x[0] == '}' }

  /** The first character tells the kind of value. */
  ghost predicate Starts(j: Json, c: char) {
    match j
    case Null => c == 'n'
    case Bool(b) => c == if b then 't' else 'f'
    case Number(_) => IsNumberChar(c)
    case Text(_) => c == '\"'
    case Array(_) => c == '['
    case Object(_) => c == '{'
  }

  lemma ThenStarts(j: Json, x: string)
    ensures Then(j, x) != "" && Starts(j, Then(j, x)[0])
  {
  }

  /** How many number characters a text begins with. */
  function NumberLength(w: string): nat { if w != "" && IsNumberChar(w[0]) then 1 + NumberLength(w[1..]) else 0 }

  lemma {:induction false} NumberLengthIs(s: string, x: string)
    requires (forall i :: 0 <= i < |s| ==> IsNumberChar(s[i])) && EndsValue(x)
    ensures NumberLength(s + x) == |s|
  {
    if s == "" {
      assert s + x == x;
    } else {
      assert (s + x)[1..] == s[1..] + x;
      NumberLengthIs(s[1..], x);
    }
  }

  lemma NumberIsUnique(s: NumberText, t: NumberText, x: string, y: string)
    requires s + x == t + y && EndsValue(x) && EndsValue(y)
    ensures s == t && x == y
  {
    var w := s + x;
    NumberLengthIs(s, x);
    NumberLengthIs(t, y);
    assert s == w[..|s|] && t == w[..|t|] && x == w[|s|..] && y == w[|t|..];
  }

  /** A value can be read off the front of a text in one way only. */
  lemma {:induction false} ValueIsUnique(j: Json, k: Json, x: string, y: string)
    requires Then(j, x) == Then(k, y) && EndsValue(x) && EndsValue(y)
    ensures j == k && x == y
    decreases j
  {
    ThenStarts(j, x);
    ThenStarts(k, y);
    match j {
      case Null => TailsAgree("null", x, y);
      case Bool(b) => TailsAgree(if b then "true" else "false", x, y);
      case Number(s) => NumberIsUnique(s, k.text, x, y);
      case Text(s) =>
        TailsAgree("\"", CharsThen(s, x), CharsThen(k.s, y));
        CharsAreUnique(s, k.s, x, y);
      case Array(items) =>
        TailsAgree("[", ItemsThen(j, items, true, x), ItemsThen(k, k.items, true, y));
        ItemsAreUnique(j, items, k, k.items, true, x, y);
      case Object(members) =>
        TailsAgree("{", MembersThen(j, members, true, x), MembersThen(k, k.members, true, y));
        MembersAreUnique(j, members, k, k.members, true, x, y);
    }
  }

  lemma ItemsStart(parent: Json, items: seq<Json>, first: bool, x: string)
    requires forall i :: 0 <= i < |items| ==> items[i] < parent
    ensures var w := ItemsThen(parent, items, first, x);
            w != "" && (items == [] <==> w[0] == ']') && (!first ==> EndsValue(w))
  {
    if items != [] { ThenStarts(items[0], ItemsThen(parent, items[1..], false, x)); }
  }

  lemma {:induction false} ItemsAreUnique(parent: Json, items: seq<Json>, other: Json, others: seq<Json>, first: bool,
                                          x: string, y: string)
    requires forall i :: 0 <= i < |items| ==> items[i] < parent
    requires forall i :: 0 <= i < |others| ==> others[i] < other
    requires ItemsThen(parent, items, first, x) == ItemsThen(other, others, first, y)
    ensures items == others && x == y
    decreases parent, |items|
  {
    ItemsStart(parent, items, first, x);
    ItemsStart(other, others, first, y);
    if items == [] {
      TailsAgree("]", x, y);
    } else {
      var p, q := ItemsThen(parent, items[1..], false, x), ItemsThen(other, others[1..], false, y);
      if !first { TailsAgree(",", Then(items[0], p), Then(others[0], q)); }
      ItemsStart(parent, items[1..], false, x);
      ItemsStart(other, others[1..], false, y);
      ValueIsUnique(items[0], others[0], p, q);
      ItemsAreUnique(parent, items[1..], other, others[1..], false, x, y);
      assert items == [items[0]] + items[1..] && others == [others[0]] + others[1..];
    }
  }

  lemma MembersStart(parent: Json, members: seq<Member>, first: bool, x: string)
    requires forall i :: 0 <= i < |members| ==> members[i].value < parent
    ensures var w := MembersThen(parent, members, first, x);
            w != "" && (members == [] <==> w[0] == '}') && (!first ==> EndsValue(w))
  {
  }

  lemma {:induction false} MembersAreUnique(parent: Json, members: seq<Member>, other: Json, others: seq<Member>,
                                            first: bool, x: string, y: string)
    requires forall i :: 0 <= i < |members| ==> members[i].value < parent
    requires forall i :: 0 <= i < |others| ==> others[i].value < other
    requires MembersThen(parent, members, first, x) == MembersThen(other, others, first, y)
    ensures members == others && x == y
    decreases parent, |members|
  {
    MembersStart(parent, members, first, x);
    MembersStart(other, others, first, y);
    if members == [] {
      TailsAgree("}", x, y);
    } else {
      var m, n := members[0], others[0];
      var p, q := MembersThen(parent, members[1..], false, x), MembersThen(other, others[1..], false, y);
      MembersStart(parent, members[1..], false, x);
      MembersStart(other, others[1..], false, y);
      NamesAgree(m, n, first, p, q);
      ValueIsUnique(m.value, n.value, p, q);
      MembersAreUnique(parent, members[1..], other, others[1..], false, x, y);
      assert members == [m] + members[1..] && others == [n] + others[1..];
    }
  }

  function MemberThen(m: Member, first: bool, p: string): string {
    var rest := "\"" + CharsThen(m.name, ":" + Then(m.value, p));
    if first then rest else "," + rest
  }

  lemma NamesAgree(m: Member, n: Member, first: bool, p: string, q: string)
    requires MemberThen(m, first, p) == MemberThen(n, first, q)
    ensures m.name == n.name && Then(m.value, p) == Then(n.value, q)
  {
    var s, t := CharsThen(m.name, ":" + Then(m.value, p)), CharsThen(n.name, ":" + Then(n.value, q));
    if !first { TailsAgree(",", "\"" + s, "\"" + t); }
    TailsAgree("\"", s, t);
    CharsAreUnique(m.name, n.name, ":" + Then(m.value, p), ":" + Then(n.value, q));
    TailsAgree(":", Then(m.value, p), Then(n.value, q));
  }

  /** Different messages have different texts, so a text has at most one reading. */
  lemma StringifyIsInjective(j: Json, k: Json)
    requires Stringify(j) == Stringify(k)
    ensures j == k
  {
    ThenIs(j, "");
    ThenIs(k, "");
    ValueIsUnique(j, k, "", "");
  }
}
