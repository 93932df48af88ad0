/**
 * JSON.stringify on trees, used by packages/themes/src/index.ts (RFC 8259,
 * sections 4 to 7): the printer, and that its text determines the tree.
 */
module ThemeJson {
  import opened Common
  import opened JsonNumbers

  datatype Entry<V> = Entry(key: Text, value: V)

  /** JSON trees with finite numbers. */
  datatype Json =
    | Null
    | Bool(b: bool)
    | Num(x: Number)
    | Str(s: Text)
    | Arr(items: seq<Json>)
    | Obj(members: seq<Entry<Json>>)

  const QUOTE: Unit := 34
  const COLON: Unit := 58
  const OPEN_BRACKET: Unit := 91
  const BACKSLASH: Unit := 92
  const OPEN_BRACE: Unit := 123

  /** "null", "true" and "false". */
  const NULL_TEXT: Text := [110, 117, 108, 108]
  const TRUE_TEXT: Text := [116, 114, 117, 101]
  const FALSE_TEXT: Text := [102, 97, 108, 115, 101]

  // ---- Strings ----------------------------------------------------------

  predicate IsHigh(u: Unit) { 0xD800 <= u < 0xDC00 }

  predicate IsLow(u: Unit) { 0xDC00 <= u < 0xE000 }

  /** A surrogate without its partner. */
  predicate IsLone(s: Text, i: nat)
    requires i < |s|
  {
    || (IsHigh(s[i]) && !(i + 1 < |s| && IsLow(s[i + 1])))
    || (IsLow(s[i]) && !(i > 0 && IsHigh(s[i - 1])))
  }

  function HexDigit(d: nat): Unit
    requires d < 16
  {
    if d < 10 then 48 + d else 87 + d
  }

  function UnicodeEscape(u: Unit): Text {
    [BACKSLASH, 117, HexDigit(u / 4096), HexDigit(u / 256 % 16), HexDigit(u / 16 % 16), HexDigit(u % 16)]
  }

  /** QuoteJSONString for one code unit. */
  function EscapeUnit(u: Unit, lone: bool): Text {
    if u == 8 then [BACKSLASH, 98]
    else if u == 9 then [BACKSLASH, 116]
    else if u == 10 then [BACKSLASH, 110]
    else if u == 12 then [BACKSLASH, 102]
    else if u == 13 then [BACKSLASH, 114]
    else if u == QUOTE then [BACKSLASH, QUOTE]
    else if u == BACKSLASH then [BACKSLASH, BACKSLASH]
    else if u < 32 || lone then UnicodeEscape(u)
    else [u]
  }

  function EscapeFrom(s: Text, i: nat): Text
    requires i <= |s|
    decreases |s| - i
  {
    if i == |s| then [] else EscapeUnit(s[i], IsLone(s, i)) + EscapeFrom(s, i + 1)
  }

  /** JSON.stringify of a string. */
  function Quote(s: Text): Text {
    [QUOTE] + EscapeFrom(s, 0) + [QUOTE]
  }

  // ---- Reading a string back --------------------------------------------

  function HexValue(u: Unit): Option<nat> {
    if 48 <= u <= 57 then Some(u - 48)
    else if 97 <= u <= 102 then Some(u - 97 + 10)
    else if 65 <= u <= 70 then Some(u - 65 + 10)
    else None
  }

  /** What one escape stands for, by the table in section 7 of RFC 8259, and how many units it takes. */
  function Unescape(t: Text): Option<(Unit, nat)>
    requires t != [] && t[0] == BACKSLASH
  {
    if |t| < 2 then None
    else if t[1] == 34 || t[1] == 92 || t[1] == 47 then Some((t[1], 2))
    else if t[1] == 98 then Some((0x08, 2))
    else if t[1] == 102 then Some((0x0C, 2))
    else if t[1] == 110 then Some((0x0A, 2))
    else if t[1] == 114 then Some((0x0D, 2))
    else if t[1] == 116 then Some((0x09, 2))
    else if t[1] == 117 && |t| >= 6 then
      var a, b, c, d := HexValue(t[2]), HexValue(t[3]), HexValue(t[4]), HexValue(t[5]);
      if a.Some? && b.Some? && c.Some? && d.Some?
      then Some((((a.value * 16 + b.value) * 16 + c.value) * 16 + d.value, 6)) else None
    else None
  }

  /** What the text between two quotes stands for. */
  function ReadString(t: Text): Option<Text>
    decreases |t|
  {
    if t == [] then Some([])
    else if t[0] == QUOTE || t[0] < 0x20 then None
    else
      var first := if t[0] == BACKSLASH then Unescape(t) else Some((t[0], 1));
      if first.None? then None
      else
        var rest := ReadString(t[first.value.1..]);
        if rest.Some? then Some([first.value.0] + rest.value) else None
  }

  lemma HexReadsBack(d: nat)
    requires d < 16
    ensures HexValue(HexDigit(d)) == Some(d)
  {
  }

  lemma UnicodeReadsBack(u: Unit, t: Text)
    requires |t| >= 6 && t[..6] == UnicodeEscape(u)
    ensures t[0] == BACKSLASH && Unescape(t) == Some((u, 6))
  {
    hide HexDigit, HexValue;
    assert forall i :: 0 <= i < 6 ==> t[i] == UnicodeEscape(u)[i];
    HexReadsBack(u / 4096);
    HexReadsBack(u / 256 % 16);
    HexReadsBack(u / 16 % 16);
    HexReadsBack(u % 16);
    Nibbles(u);
  }

  lemma EscapeReadsBack(u: Unit, lone: bool, a: Text)
    requires ReadString(a).Some?
    ensures ReadString(EscapeUnit(u, lone) + a) == Some([u] + ReadString(a).value)
  {
    hide UnicodeEscape, HexValue;
    var e := EscapeUnit(u, lone);
    var t := e + a;
    UnicodeHasSixUnits(u);
    assert e != [] && t[0] == e[0] && t[|e|..] == a && t[..|e|] == e;
    if |e| == 6 {
      UnicodeReadsBack(u, t);
    } else if |e| == 2 {
      assert t[1] == e[1];
    }
  }

  lemma UnicodeHasSixUnits(u: Unit)
    ensures |UnicodeEscape(u)| == 6
  {
  }

  /** A printed string reads back as itself. */
  lemma {:induction false} EscapesReadBack(s: Text, i: nat)
    requires i <= |s|
    ensures ReadString(EscapeFrom(s, i)) == Some(s[i..])
    decreases |s| - i
  {
    if i == |s| {
      assert s[i..] == [];
    } else {
      assert s[i..] == [s[i]] + s[i + 1..];
      EscapesReadBack(s, i + 1);
      EscapeReadsBack(s[i], IsLone(s, i), EscapeFrom(s, i + 1));
    }
  }

  /** Only control characters, the quote, the backslash and unpaired surrogates are escaped. */
  lemma EscapesOnlyWhatItMust(s: Text, i: nat)
    requires i < |s|
    ensures EscapeUnit(s[i], IsLone(s, i)) == [s[i]] <==>
            && s[i] >= 0x20 && s[i] != 0x22 && s[i] != 0x5C
            && (0xD800 <= s[i] <= 0xDBFF ==> i + 1 < |s| && 0xDC00 <= s[i + 1] <= 0xDFFF)
            && (0xDC00 <= s[i] <= 0xDFFF ==> i > 0 && 0xD800 <= s[i - 1] <= 0xDBFF)
  {
    UnicodeHasSixUnits(s[i]);
  }

  // ---- Printing ---------------------------------------------------------

  /** JSON.stringify without white space: members in the order they are stored. */
  function Print(v: Json): Text {
    match v
    case Null => NULL_TEXT
    case Bool(b) => if b then TRUE_TEXT else FALSE_TEXT
    case Num(x) => NumberText(x)
    case Str(s) => Quote(s)
    case Arr(items) => [OPEN_BRACKET] + PrintItems(items) + [CLOSE_BRACKET]
    case Obj(members) => [OPEN_BRACE] + PrintMembers(members) + [CLOSE_BRACE]
  }

  function PrintItems(items: seq<Json>): Text {
    if items == [] then []
    else Print(items[0]) + (if |items| == 1 then [] else [COMMA] + PrintItems(items[1..]))
  }

  function PrintMembers(members: seq<Entry<Json>>): Text {
    if members == [] then []
    else
      Quote(members[0].key) + [COLON] + Print(members[0].value)
      + (if |members| == 1 then [] else [COMMA] + PrintMembers(members[1..]))
  }

  /** {"a":[null,true],"b":false} */
  lemma PrintedExample()
    ensures var v := Obj([Entry([97], Arr([Null, Bool(true)])), Entry([98], Bool(false))]);
            Print(v) == [123, 34, 97, 34, 58, 91] + [110, 117, 108, 108, 44, 116, 114, 117, 101] + [93, 44]
                        + [34, 98, 34, 58, 102, 97, 108, 115, 101, 125]
  {
    var items := [Null, Bool(true)];
    var members := [Entry([97], Arr(items)), Entry([98], Bool(false))];
    assert items[1..] == [Bool(true)] && members[1..] == [members[1]];
    assert PrintItems([Bool(true)]) == TRUE_TEXT;
    QuotedLetter(97);
    QuotedLetter(98);
  }

  lemma QuotedLetter(u: Unit)
    requires 97 <= u <= 122
    ensures Quote([u]) == [34, u, 34]
  {
    assert EscapeFrom([u], 1) == [];
  }

  // ---- Unambiguity ------------------------------------------------------

  lemma Associate(a: Text, b: Text, c: Text)
    ensures (a + b) + c == a + (b + c)
  {
  }

  lemma Head(a: Text, b: Text)
    requires a != []
    ensures a + b != [] && (a + b)[0] == a[0]
  {
  }

  lemma Behind(t: Text, a: Text, b: Text)
    requires t + a == t + b
    ensures a == b
  {
    assert a == (t + a)[|t|..] && b == (t + b)[|t|..];
  }

  lemma Nibbles(u: Unit)
    ensures u == (u / 4096) * 4096 + (u / 256 % 16) * 256 + (u / 16 % 16) * 16 + u % 16
  {
    assert u / 256 == (u / 256 / 16) * 16 + u / 256 % 16;
    assert u / 16 == (u / 16 / 16) * 16 + u / 16 % 16;
    assert u / 16 / 16 == u / 256 && u / 256 / 16 == u / 4096;
  }

  lemma HexDigitsDecode(u: Unit, w: Unit)
    requires UnicodeEscape(u) == UnicodeEscape(w)
    ensures u == w
  {
    var x, y := UnicodeEscape(u), UnicodeEscape(w);
    assert x[2] == y[2] && x[3] == y[3] && x[4] == y[4] && x[5] == y[5];
    Nibbles(u);
    Nibbles(w);
  }

  /** The escape of one unit determines the unit, whatever text follows. */
  lemma EscapeUnitIsUnambiguous(u: Unit, lu: bool, a: Text, w: Unit, lw: bool, b: Text)
    requires EscapeUnit(u, lu) + a == EscapeUnit(w, lw) + b
    ensures u == w && a == b
  {
    var x, y := EscapeUnit(u, lu) + a, EscapeUnit(w, lw) + b;
    assert x[0] == y[0];
    if x[0] != BACKSLASH {
      assert a == x[1..] && b == y[1..];
    } else {
      assert x[1] == y[1];
      if x[1] == 117 {
        assert UnicodeEscape(u) == x[..6] && UnicodeEscape(w) == y[..6];
        HexDigitsDecode(u, w);
        assert a == x[6..] && b == y[6..];
      } else {
        assert a == x[2..] && b == y[2..];
      }
    }
  }

  lemma EscapeUnitStarts(u: Unit, lone: bool)
    ensures EscapeUnit(u, lone) != [] && EscapeUnit(u, lone)[0] != QUOTE
  {
  }

  lemma {:induction false} EscapesAreUnambiguous(s: Text, t: Text, i: nat, a: Text, b: Text)
    requires i <= |s| && i <= |t| && s[..i] == t[..i]
    requires EscapeFrom(s, i) + [QUOTE] + a == EscapeFrom(t, i) + [QUOTE] + b
    ensures s == t && a == b
    decreases |s| - i
  {
    EscapesStart(s, i, a);
    EscapesStart(t, i, b);
    if i == |s| {
      Behind([QUOTE], a, b);
      assert s == s[..i] && t == t[..i];
    } else {
      EscapeUnitIsUnambiguous(s[i], IsLone(s, i), EscapeFrom(s, i + 1) + [QUOTE] + a,
                              t[i], IsLone(t, i), EscapeFrom(t, i + 1) + [QUOTE] + b);
      assert s[..i + 1] == s[..i] + [s[i]] && t[..i + 1] == t[..i] + [t[i]];
      EscapesAreUnambiguous(s, t, i + 1, a, b);
    }
  }

  lemma EscapesStart(s: Text, i: nat, a: Text)
    requires i <= |s|
    ensures (EscapeFrom(s, i) + [QUOTE] + a) != []
    ensures (EscapeFrom(s, i) + [QUOTE] + a)[0] == QUOTE <==> i == |s|
    ensures i == |s| ==> EscapeFrom(s, i) + [QUOTE] + a == [QUOTE] + a
    ensures i < |s| ==> EscapeFrom(s, i) + [QUOTE] + a
                        == EscapeUnit(s[i], IsLone(s, i)) + (EscapeFrom(s, i + 1) + [QUOTE] + a)
  {
    if i < |s| {
      var e := EscapeUnit(s[i], IsLone(s, i));
      EscapeUnitStarts(s[i], IsLone(s, i));
      Associate(e, EscapeFrom(s, i + 1), [QUOTE]);
      Associate(e, EscapeFrom(s, i + 1) + [QUOTE], a);
      Head(e, EscapeFrom(s, i + 1) + [QUOTE] + a);
    } else {
      assert [] + [QUOTE] == [QUOTE];
    }
  }

  lemma QuotesAreUnambiguous(s: Text, t: Text, a: Text, b: Text)
    requires Quote(s) + a == Quote(t) + b
    ensures s == t && a == b
  {
    var x, y := Quote(s) + a, Quote(t) + b;
    assert x[1..] == EscapeFrom(s, 0) + [QUOTE] + a;
    assert y[1..] == EscapeFrom(t, 0) + [QUOTE] + b;
    EscapesAreUnambiguous(s, t, 0, a, b);
  }

  /** The first unit of a printed value tells its kind. */
  function Kind(u: Unit): nat {
    if u == 110 then 0 else if u == 116 || u == 102 then 1 else if u == MINUS || IsDigit(u) then 2
    else if u == QUOTE then 3 else if u == OPEN_BRACKET then 4 else if u == OPEN_BRACE then 5 else 6
  }

  function KindOf(v: Json): nat {
    match v
    case Null => 0 case Bool(_) => 1 case Num(_) => 2 case Str(_) => 3 case Arr(_) => 4 case Obj(_) => 5
  }

  lemma PrintStartsWithKind(v: Json)
    ensures Print(v) != [] && Kind(Print(v)[0]) == KindOf(v)
  {
    if v.Num? { NumberStarts(v.x); }
  }

  /** Printing is unambiguous: the text determines the value and where it ends. */
  lemma {:induction false} PrintIsUnambiguous(v: Json, w: Json, a: Text, b: Text)
    requires Ends(a) && Ends(b) && Print(v) + a == Print(w) + b
    ensures v == w && a == b
    decreases v, 1
  {
    PrintStartsWithKind(v);
    PrintStartsWithKind(w);
    assert (Print(v) + a)[0] == Print(v)[0] && (Print(w) + b)[0] == Print(w)[0];
    assert KindOf(v) == KindOf(w);
    match v {
      case Null => Behind(NULL_TEXT, a, b);
      case Bool(p) => BooleansAreUnambiguous(p, w.b, a, b);
      case Num(x) => NumbersAreUnambiguous(x, w.x, a, b);
      case Str(s) => QuotesAreUnambiguous(s, w.s, a, b);
      case Arr(items) =>
        Unwrap(OPEN_BRACKET, PrintItems(items), PrintItems(w.items), CLOSE_BRACKET, a, b);
        ItemsAreUnambiguous(v, items, w.items, a, b);
      case Obj(members) =>
        Unwrap(OPEN_BRACE, PrintMembers(members), PrintMembers(w.members), CLOSE_BRACE, a, b);
        MembersAreUnambiguous(v, members, w.members, a, b);
    }
  }

  lemma BooleansAreUnambiguous(p: bool, q: bool, a: Text, b: Text)
    requires Print(Bool(p)) + a == Print(Bool(q)) + b
    ensures p == q && a == b
  {
    assert (Print(Bool(p)) + a)[0] == Print(Bool(p))[0] && (Print(Bool(q)) + b)[0] == Print(Bool(q))[0];
    Behind(Print(Bool(p)), a, b);
  }

  lemma Unwrap(open: Unit, x: Text, y: Text, close: Unit, a: Text, b: Text)
    requires ([open] + x + [close]) + a == ([open] + y + [close]) + b
    ensures x + ([close] + a) == y + ([close] + b)
  {
    assert ([open] + x + [close]) + a == [open] + (x + ([close] + a));
    assert ([open] + y + [close]) + b == [open] + (y + ([close] + b));
    Behind([open], x + ([close] + a), y + ([close] + b));
  }

  /** What follows one element of a list: a separator and the rest, or the end. */
  lemma SeparatorTells(more: bool, others: bool, x: Text, y: Text, close: Unit, a: Text, b: Text)
    requires close != COMMA
    requires (if more then [COMMA] + x else []) + ([close] + a) == (if others then [COMMA] + y else []) + ([close] + b)
    ensures more == others
    ensures !more ==> a == b
    ensures more ==> x + ([close] + a) == y + ([close] + b)
  {
    var p := (if more then [COMMA] + x else []) + ([close] + a);
    var q := (if others then [COMMA] + y else []) + ([close] + b);
    assert p[0] == (if more then COMMA else close) && q[0] == (if others then COMMA else close);
    assert p[1..] == if more then x + ([close] + a) else a;
    assert q[1..] == if others then y + ([close] + b) else b;
  }

  function ItemsTail(items: seq<Json>): Text
    requires items != []
  {
    if |items| == 1 then [] else [COMMA] + PrintItems(items[1..])
  }

  lemma ItemsStart(items: seq<Json>, rest: Text)
    requires rest != [] && rest[0] == CLOSE_BRACKET
    ensures (PrintItems(items) + rest) != []
    ensures (PrintItems(items) + rest)[0] == CLOSE_BRACKET <==> items == []
    ensures items != [] ==> PrintItems(items) + rest == Print(items[0]) + (ItemsTail(items) + rest)
  {
    if items == [] {
      assert PrintItems(items) + rest == rest;
    } else {
      PrintStartsWithKind(items[0]);
      Associate(Print(items[0]), ItemsTail(items), rest);
      Head(Print(items[0]), ItemsTail(items) + rest);
    }
  }

  lemma {:induction false} ItemsAreUnambiguous(v: Json, items: seq<Json>, others: seq<Json>, a: Text, b: Text)
    requires forall i :: 0 <= i < |items| ==> items[i] < v
    requires PrintItems(items) + ([CLOSE_BRACKET] + a) == PrintItems(others) + ([CLOSE_BRACKET] + b)
    ensures items == others && a == b
    decreases v, 0, |items|
  {
    hide Print;
    ItemsStart(items, [CLOSE_BRACKET] + a);
    ItemsStart(others, [CLOSE_BRACKET] + b);
    if items == [] {
      assert [] + ([CLOSE_BRACKET] + a) == [CLOSE_BRACKET] + a && [] + ([CLOSE_BRACKET] + b) == [CLOSE_BRACKET] + b;
      Behind([CLOSE_BRACKET], a, b);
    } else {
      PrintIsUnambiguous(items[0], others[0],
                         ItemsTail(items) + ([CLOSE_BRACKET] + a), ItemsTail(others) + ([CLOSE_BRACKET] + b));
      SeparatorTells(|items| > 1, |others| > 1, PrintItems(items[1..]), PrintItems(others[1..]), CLOSE_BRACKET, a, b);
      if |items| > 1 {
        ItemsAreUnambiguous(v, items[1..], others[1..], a, b);
      }
      assert items == [items[0]] + items[1..] && others == [others[0]] + others[1..];
    }
  }

  function MembersTail(members: seq<Entry<Json>>): Text
    requires members != []
  {
    if |members| == 1 then [] else [COMMA] + PrintMembers(members[1..])
  }

  lemma MembersStart(members: seq<Entry<Json>>, rest: Text)
    requires rest != [] && rest[0] == CLOSE_BRACE
    ensures (PrintMembers(members) + rest) != []
    ensures (PrintMembers(members) + rest)[0] == CLOSE_BRACE <==> members == []
    ensures members == [] ==> PrintMembers(members) + rest == rest
    ensures members != [] ==>
              PrintMembers(members) + rest
              == Quote(members[0].key) + ([COLON] + (Print(members[0].value) + (MembersTail(members) + rest)))
  {
    if members == [] {
      assert PrintMembers(members) + rest == rest;
    } else {
      var q, p, t := Quote(members[0].key), Print(members[0].value), MembersTail(members);
      assert PrintMembers(members) == q + [COLON] + p + t;
      Associate(q + [COLON] + p, t, rest);
      Associate(q + [COLON], p, t + rest);
      Associate(q, [COLON], p + (t + rest));
      Head(q, [COLON] + (p + (t + rest)));
    }
  }

  lemma {:induction false} MembersAreUnambiguous(
    v: Json, members: seq<Entry<Json>>, others: seq<Entry<Json>>, a: Text, b: Text)
    requires forall i :: 0 <= i < |members| ==> members[i].value < v
    requires PrintMembers(members) + ([CLOSE_BRACE] + a) == PrintMembers(others) + ([CLOSE_BRACE] + b)
    ensures members == others && a == b
    decreases v, 0, |members|
  {
    hide Print, Quote, PrintMembers;
    MembersStart(members, [CLOSE_BRACE] + a);
    MembersStart(others, [CLOSE_BRACE] + b);
    if members == [] {
      Behind([CLOSE_BRACE], a, b);
    } else {
      var restX, restY := MembersTail(members) + ([CLOSE_BRACE] + a), MembersTail(others) + ([CLOSE_BRACE] + b);
      var valueX, valueY := Print(members[0].value) + restX, Print(others[0].value) + restY;
      QuotesAreUnambiguous(members[0].key, others[0].key, [COLON] + valueX, [COLON] + valueY);
      Behind([COLON], valueX, valueY);
      PrintIsUnambiguous(members[0].value, others[0].value, restX, restY);
      SeparatorTells(
        |members| > 1, |others| > 1, PrintMembers(members[1..]), PrintMembers(others[1..]), CLOSE_BRACE, a, b);
      if |members| > 1 {
        MembersAreUnambiguous(v, members[1..], others[1..], a, b);
      }
      assert members == [members[0]] + members[1..] && others == [others[0]] + others[1..];
    }
  }
}
