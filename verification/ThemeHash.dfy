/**
 * themeHash of packages/themes/src/index.ts: a 32-bit FNV-1a hash of the stable
 * text without its stored "definitionHash", printed as eight hexadecimal digits.
 */
module ThemeHash {
  import opened Common
  import opened JsonNumbers
  import opened ThemeJson
  import opened CanonicalTheme

  // ---- Dropping the stored hash -----------------------------------------

  /** definitionHash */
  const HASH_NAME: Text := [100, 101, 102, 105, 110, 105, 116, 105, 111, 110, 72, 97, 115, 104]

  /** The same, with both quotes and the colon. */
  const HASH_KEY: Text := [QUOTE] + HASH_NAME + [QUOTE, COLON]

  predicate StartsWith(text: Text, i: nat, word: Text)
    requires i <= |text|
  {
    i + |word| <= |text| && text[i..i + |word|] == word
  }

  /** First quote at or after `i`. */
  function NextQuote(text: Text, i: nat): (r: Option<nat>)
    requires i <= |text|
    ensures r.Some? ==> i <= r.value < |text| && text[r.value] == QUOTE
    decreases |text| - i
  {
    if i == |text| then None
    else if text[i] == QUOTE then Some(i)
    else NextQuote(text, i + 1)
  }

  /** End of the value that the pattern accepts at `i`: a quoted run without quotes, or null. */
  function ValueEnd(text: Text, i: nat): (r: Option<nat>)
    requires i <= |text|
    ensures r.Some? ==> i < r.value <= |text|
  {
    if i < |text| && text[i] == QUOTE then
      var close := NextQuote(text, i + 1);
      if close.Some? then Some(close.value + 1) else None
    else if StartsWith(text, i, NULL_TEXT) then Some(i + 4)
    else None
  }

  /** End of the match at `i`, with the comma that may follow. */
  function MatchEnd(text: Text, i: nat): (r: Option<nat>)
    requires i <= |text|
    ensures r.Some? ==> i < r.value <= |text|
  {
    if !StartsWith(text, i, HASH_KEY) then None
    else
      var end := ValueEnd(text, i + |HASH_KEY|);
      if end.None? then None
      else if end.value < |text| && text[end.value] == COMMA then Some(end.value + 1)
      else end
  }

  /** The text without the leftmost match at or after `i`. */
  function StripFrom(text: Text, i: nat): Text
    requires i <= |text|
    decreases |text| - i
  {
    if i == |text| then text
    else
      var end := MatchEnd(text, i);
      if end.Some? then text[..i] + text[end.value..] else StripFrom(text, i + 1)
  }

  function Strip(text: Text): Text {
    StripFrom(text, 0)
  }

  // ---- FNV-1a -----------------------------------------------------------

  /** 32-bit words, read without a sign as >>> 0 does at the end. */
  type Word = n: nat | n < 0x1_0000_0000

  const OFFSET: Word := 2166136261

  function Xor(a: nat, b: nat): nat {
    if a == 0 && b == 0 then 0 else (a + b) % 2 + 2 * Xor(a / 2, b / 2)
  }

  function Pow2(bits: nat): nat {
    if bits == 0 then 1 else 2 * Pow2(bits - 1)
  }

  /** Math.imul by the prime. */
  function Spread(n: nat): Word {
    n * 16777619 % 0x1_0000_0000
  }

  function Step(hash: Word, u: Unit): Word {
    Spread(Xor(hash, u))
  }

  function Fnv(units: Text): Word {
    if units == [] then OFFSET else Step(Fnv(units[..|units| - 1]), units[|units| - 1])
  }

  /** The loop visits code points and hashes only the first code unit of each. */
  predicate IsPair(text: Text, i: nat)
    requires i < |text|
  {
    IsHigh(text[i]) && i + 1 < |text| && IsLow(text[i + 1])
  }

  function LeadsUpTo(text: Text, i: nat): Text
    requires i <= |text|
  {
    if i == 0 then []
    else if i >= 2 && IsPair(text, i - 2) then LeadsUpTo(text, i - 2) + [text[i - 2]]
    else LeadsUpTo(text, i - 1) + [text[i - 1]]
  }

  /** First code units of the code points of the text. */
  function Leads(text: Text): Text {
    LeadsUpTo(text, |text|)
  }

  /** toString(16).padStart(8, '0'). */
  function Hex(hash: Word): Text {
    HexLast(hash, 8)
  }

  function HexLast(n: nat, count: nat): (r: Text)
    ensures |r| == count
  {
    if count == 0 then [] else HexLast(n / 16, count - 1) + [HexDigit(n % 16)]
  }

  function HashText(text: Text): Word {
    Fnv(Leads(Strip(text)))
  }

  /** What themeHash returns. */
  function HashOf(theme: Json): Text {
    Hex(HashText(StableThemeJson(theme)))
  }

  lemma FnvSnoc(units: Text, u: Unit)
    ensures Fnv(units + [u]) == Step(Fnv(units), u)
  {
    assert (units + [u])[..|units|] == units;
  }

  /** What one turn of the loop adds, whether or not it skips a low surrogate. */
  lemma LeadsNext(text: Text, i: nat)
    requires i < |text|
    requires i > 0 ==> !IsPair(text, i - 1)
    ensures LeadsUpTo(text, if IsPair(text, i) then i + 2 else i + 1) == LeadsUpTo(text, i) + [text[i]]
    ensures IsPair(text, i) ==> !IsPair(text, i + 1)
  {
  }

  lemma NothingHashed(text: Text)
    ensures Fnv(LeadsUpTo(text, 0)) == OFFSET
  {
  }

  method ThemeHash(theme: Json) returns (hex: Text)
    ensures hex == HashOf(theme)
  {
    hide Step, Fnv, LeadsUpTo, StripFrom;
    NothingHashed(Strip(StableThemeJson(theme)));
    var text := Strip(StableThemeJson(theme));
    var hash, i := OFFSET, 0;
    while i < |text|
      invariant i <= |text|
      invariant i < |text| && i > 0 ==> !IsPair(text, i - 1)
      invariant hash == Fnv(LeadsUpTo(text, i))
    {
      LeadsNext(text, i);
      FnvSnoc(LeadsUpTo(text, i), text[i]);
      hash := Step(hash, text[i]);
      i := if IsPair(text, i) then i + 2 else i + 1;
    }
    hex := Hex(hash);
  }

  lemma {:induction false} XorWithZero(a: nat)
    ensures Xor(a, 0) == a
  {
    if a != 0 { XorWithZero(a / 2); }
  }

  lemma FirstXor()
    ensures Xor(2166136261, 97) == 2166136228
  {
    XorWithZero(16922939);
    assert Xor(33845879, 1) == 33845878;
    assert Xor(67691758, 3) == 67691757;
    assert Xor(135383516, 6) == 135383514;
    assert Xor(270767032, 12) == 270767028;
    assert Xor(541534065, 24) == 541534057;
    assert Xor(1083068130, 48) == 1083068114;
    assert Xor(2166136261, 97) == 2166136228;
  }

  /** A published value of the 32-bit FNV-1a function: the hash of "a" is e40c292c. */
  lemma HashOfLetterA()
    ensures Fnv([97]) == 0xE40C292C
  {
    hide Xor;
    assert [97][..0] == [];
    FirstXor();
  }

  lemma DigitsOfThatHash()
    ensures Hex(0xE40C292C) == [101, 52, 48, 99, 50, 57, 50, 99]
  {
    assert HexLast(0xE40C, 4) == [101, 52, 48, 99];
    assert HexLast(0xE40C29, 6) == [101, 52, 48, 99, 50, 57];
  }

  // ---- What the hash tells apart ----------------------------------------

  lemma HalfOfXor(a: nat, b: nat)
    ensures Xor(a, b) / 2 == Xor(a / 2, b / 2)
    ensures Xor(a, b) % 2 == (a + b) % 2
  {
  }

  lemma ParityCancels(x: nat, a: nat, b: nat)
    requires x % 2 == (a + b) % 2
    ensures (x + b) % 2 == a % 2
  {
  }

  lemma {:induction false} XorUndoesXor(a: nat, b: nat)
    ensures Xor(Xor(a, b), b) == a
  {
    if a != 0 || b != 0 {
      XorUndoesXor(a / 2, b / 2);
      HalfOfXor(a, b);
      HalfOfXor(Xor(a, b), b);
      ParityCancels(Xor(a, b), a, b);
    }
  }

  lemma {:induction false} XorIsSymmetric(a: nat, b: nat)
    ensures Xor(a, b) == Xor(b, a)
  {
    if a != 0 || b != 0 { XorIsSymmetric(a / 2, b / 2); }
  }

  lemma {:induction false} XorKeepsWidth(a: nat, b: nat, bits: nat)
    requires a < Pow2(bits) && b < Pow2(bits)
    ensures Xor(a, b) < Pow2(bits)
  {
    if bits > 0 && (a != 0 || b != 0) { XorKeepsWidth(a / 2, b / 2, bits - 1); }
  }

  lemma WordsHave32Bits()
    ensures Pow2(32) == 0x1_0000_0000
  {
    assert Pow2(8) == 0x100;
    assert Pow2(16) == 0x1_0000;
    assert Pow2(24) == 0x100_0000;
  }

  lemma XorOfWords(hash: Word, u: Unit)
    ensures Xor(hash, u) < 0x1_0000_0000
  {
    WordsHave32Bits();
    XorKeepsWidth(hash, u, 32);
  }

  /** 899433627 is the inverse of the prime modulo 2^32. */
  lemma SpreadIsInjective(m: Word, n: Word)
    requires Spread(m) == Spread(n)
    ensures m == n
  {
    var d := m - n;
    var k := m * 16777619 / 0x1_0000_0000 - n * 16777619 / 0x1_0000_0000;
    assert d * 16777619 == k * 0x1_0000_0000;
    assert 16777619 * 899433627 == 3513497 * 0x1_0000_0000 + 1;
    assert d == 0x1_0000_0000 * (k * 899433627 - 3513497 * d);
  }

  lemma StepIsInjective(g: Word, h: Word, u: Unit)
    requires Step(g, u) == Step(h, u)
    ensures g == h
  {
    XorOfWords(g, u);
    XorOfWords(h, u);
    SpreadIsInjective(Xor(g, u), Xor(h, u));
    XorUndoesXor(g, u);
    XorUndoesXor(h, u);
  }

  lemma StepTellsUnits(h: Word, u: Unit, w: Unit)
    requires Step(h, u) == Step(h, w)
    ensures u == w
  {
    XorOfWords(h, u);
    XorOfWords(h, w);
    SpreadIsInjective(Xor(h, u), Xor(h, w));
    XorIsSymmetric(h, u);
    XorIsSymmetric(h, w);
    XorUndoesXor(u, h);
    XorUndoesXor(w, h);
  }

  /** A change of one hashed unit always changes the hash. */
  lemma {:induction false} OneUnitChangeIsDetected(a: Text, u: Unit, w: Unit, b: Text)
    requires u != w
    ensures Fnv(a + [u] + b) != Fnv(a + [w] + b)
  {
    if b == [] {
      FnvSnoc(a, u);
      FnvSnoc(a, w);
      assert a + [u] + b == a + [u] && a + [w] + b == a + [w];
      if Step(Fnv(a), u) == Step(Fnv(a), w) { StepTellsUnits(Fnv(a), u, w); }
    } else {
      var front, last := b[..|b| - 1], b[|b| - 1];
      assert a + [u] + b == a + [u] + front + [last] && a + [w] + b == a + [w] + front + [last];
      FnvSnoc(a + [u] + front, last);
      FnvSnoc(a + [w] + front, last);
      OneUnitChangeIsDetected(a, u, w, front);
      var g, h := Fnv(a + [u] + front), Fnv(a + [w] + front);
      if Step(g, last) == Step(h, last) { StepIsInjective(g, h, last); }
    }
  }

  /** `c` is one code point where it stands: a pair, or a unit that is no half of one. */
  predicate IsCodePoint(a: Text, c: Text, b: Text) {
    && c != []
    && !(a != [] && IsHigh(a[|a| - 1]) && IsLow(c[0]))
    && if |c| == 1 then !(b != [] && IsHigh(c[0]) && IsLow(b[0])) else |c| == 2 && IsHigh(c[0]) && IsLow(c[1])
  }

  lemma {:induction false} LeadsOfFront(a: Text, rest: Text, i: nat)
    requires i <= |a|
    ensures LeadsUpTo(a + rest, i) == LeadsUpTo(a, i)
  {
    if i > 0 { LeadsOfFront(a, rest, i - 1); }
    if i > 1 { LeadsOfFront(a, rest, i - 2); }
  }

  /** Behind a boundary of code points, the leads are those of what follows it. */
  lemma {:induction false} LeadsAlong(text: Text, n: nat, j: nat)
    requires 0 < n && n + j <= |text| && !IsPair(text, n - 1)
    ensures LeadsUpTo(text, n + j) == LeadsUpTo(text, n) + LeadsUpTo(text[n..], j)
  {
    if j > 0 {
      var front, rest := LeadsUpTo(text, n), text[n..];
      var k := if j > 1 && IsPair(rest, j - 2) then j - 2 else j - 1;
      LeadsAlong(text, n, k);
      assert j > 1 ==> (IsPair(rest, j - 2) <==> IsPair(text, n + j - 2));
      assert LeadsUpTo(text, n + j) == LeadsUpTo(text, n + k) + [text[n + k]];
      assert LeadsUpTo(rest, j) == LeadsUpTo(rest, k) + [rest[k]];
      Associate(front, LeadsUpTo(rest, k), [rest[k]]);
    }
  }

  lemma LeadsAround(a: Text, c: Text, b: Text)
    requires IsCodePoint(a, c, b)
    ensures Leads(a + c + b) == Leads(a) + [c[0]] + Leads(b)
  {
    var text, n := a + c + b, |a| + |c|;
    assert text == a + (c + b) && text[n..] == b && text[|a|] == c[0];
    LeadsOfFront(a, c + b, |a|);
    assert LeadsUpTo(text, n) == Leads(a) + [c[0]];
    LeadsAlong(text, n, |b|);
  }

  /** Replacing one code point by another changes the hash text exactly when their first units differ. */
  lemma CodePointChangeIsDetectedIff(a: Text, c: Text, d: Text, b: Text)
    requires IsCodePoint(a, c, b) && IsCodePoint(a, d, b)
    ensures Hex(Fnv(Leads(a + c + b))) != Hex(Fnv(Leads(a + d + b))) <==> c[0] != d[0]
  {
    hide Fnv;
    LeadsAround(a, c, b);
    LeadsAround(a, d, b);
    if c[0] != d[0] {
      var g, h := Fnv(Leads(a) + [c[0]] + Leads(b)), Fnv(Leads(a) + [d[0]] + Leads(b));
      OneUnitChangeIsDetected(Leads(a), c[0], d[0], Leads(b));
      if Hex(g) == Hex(h) { HexIsInjective(g, h); }
    }
  }

  lemma {:induction false} HexLastIsInjective(m: nat, n: nat, count: nat)
    requires m < Pow2(4 * count) && n < Pow2(4 * count)
    requires HexLast(m, count) == HexLast(n, count)
    ensures m == n
  {
    if count > 0 {
      var x, y := HexLast(m / 16, count - 1), HexLast(n / 16, count - 1);
      assert x == HexLast(m, count)[..count - 1] && y == HexLast(n, count)[..count - 1];
      assert HexDigit(m % 16) == HexLast(m, count)[count - 1] == HexDigit(n % 16);
      assert Pow2(4 * count) == 16 * Pow2(4 * (count - 1)) by {
        assert Pow2(4 * count) == 2 * Pow2(4 * count - 1) && Pow2(4 * count - 1) == 2 * Pow2(4 * count - 2);
        assert Pow2(4 * count - 2) == 2 * Pow2(4 * count - 3) && Pow2(4 * count - 3) == 2 * Pow2(4 * count - 4);
      }
      HexLastIsInjective(m / 16, n / 16, count - 1);
    }
  }

  /** The eight digits keep all 32 bits, leading zeros included. */
  lemma HexIsInjective(m: Word, n: Word)
    requires Hex(m) == Hex(n)
    ensures m == n
  {
    WordsHave32Bits();
    HexLastIsInjective(m, n, 8);
  }

  /** Reordering the keys of a definition, at any depth, does not change its hash. */
  lemma ReorderedDefinitionsHashAlike(v: Json, w: Json)
    requires WellFormed(v) && WellFormed(w) && Equivalent(v, w)
    ensures HashOf(v) == HashOf(w)
  {
    StableTextDecidesEquivalence(v, w);
  }

  /** Two different definitions with one hash: U+1F600 and U+1F601 share their first code unit. */
  lemma SomeDefinitionsCollide()
    ensures !Equivalent(Str([0xD83D, 0xDE00]), Str([0xD83D, 0xDE01]))
    ensures HashOf(Str([0xD83D, 0xDE00])) == HashOf(Str([0xD83D, 0xDE01]))
  {
    hide Fnv, Hex, LeadsUpTo, StripFrom, Quote;
    var x, y: Text := [QUOTE, 0xD83D, 0xDE00, QUOTE], [QUOTE, 0xD83D, 0xDE01, QUOTE];
    PairPrintsItself([0xD83D, 0xDE00]);
    PairPrintsItself([0xD83D, 0xDE01]);
    ShortTextIsKept(x, 0);
    ShortTextIsKept(y, 0);
    LeadsAround([QUOTE], [0xD83D, 0xDE00], [QUOTE]);
    LeadsAround([QUOTE], [0xD83D, 0xDE01], [QUOTE]);
    assert x == [QUOTE] + [0xD83D, 0xDE00] + [QUOTE] && y == [QUOTE] + [0xD83D, 0xDE01] + [QUOTE];
  }

  lemma PairPrintsItself(s: Text)
    requires |s| == 2 && IsHigh(s[0]) && IsLow(s[1])
    ensures Quote(s) == [QUOTE, s[0], s[1], QUOTE]
  {
    assert EscapeFrom(s, 2) == [];
    assert EscapeFrom(s, 1) == [s[1]];
    assert EscapeFrom(s, 0) == [s[0], s[1]];
  }

  lemma {:induction false} ShortTextIsKept(text: Text, i: nat)
    requires i <= |text| < |HASH_KEY|
    ensures StripFrom(text, i) == text
    decreases |text| - i
  {
    if i < |text| { ShortTextIsKept(text, i + 1); }
  }

  // ---- The stored hash --------------------------------------------------

  /** A value that the pattern can remove: null, or a string printed without inner quotes. */
  predicate IsStoredHash(value: Text) {
    || value == NULL_TEXT
    || (|value| >= 2 && value[0] == QUOTE && value[|value| - 1] == QUOTE
        && forall i :: 0 < i < |value| - 1 ==> value[i] != QUOTE)
  }

  function WithoutComma(b: Text): Text {
    if b != [] && b[0] == COMMA then b[1..] else b
  }

  lemma {:induction false} NextQuoteIs(text: Text, i: nat, j: nat)
    requires i <= j < |text| && text[j] == QUOTE
    requires forall k :: i <= k < j ==> text[k] != QUOTE
    ensures NextQuote(text, i) == Some(j)
    decreases j - i
  {
    if i < j { NextQuoteIs(text, i + 1, j); }
  }

  lemma ValueEndsWhereItEnds(front: Text, value: Text, b: Text)
    requires IsStoredHash(value)
    ensures ValueEnd(front + value + b, |front|) == Some(|front| + |value|)
  {
    var text := front + value + b;
    assert forall k :: 0 <= k < |value| ==> text[|front| + k] == value[k];
    if value == NULL_TEXT {
      assert text[|front|..|front| + 4] == value;
    } else {
      NextQuoteIs(text, |front| + 1, |front| + |value| - 1);
    }
  }

  lemma {:induction false} StripSkips(text: Text, i: nat, j: nat)
    requires i <= j <= |text|
    requires forall k :: i <= k < j ==> MatchEnd(text, k).None?
    ensures StripFrom(text, i) == StripFrom(text, j)
    decreases j - i
  {
    if i < j { StripSkips(text, i + 1, j); }
  }

  // ---- Matches before the stored hash -----------------------------------

  /** What stands before the key of the stored hash: an object's start, or earlier members. */
  predicate IsFront(a: Text) {
    a != [] && (a[|a| - 1] == OPEN_BRACE || a[|a| - 1] == COMMA)
  }

  /** The pattern finds something before the key that ends the text. */
  ghost predicate MatchesEarlier(a: Text) {
    exists k :: 0 <= k < |a| && MatchEnd(a + HASH_KEY, k).Some?
  }

  lemma UnitsOfMatch(text: Text, k: nat, word: Text, i: nat)
    requires k <= |text| && StartsWith(text, k, word) && k <= i < |text|
    ensures i < k + |word| ==> text[i] in word
  {
    if i < k + |word| { assert text[i] == text[k..k + |word|][i - k] == word[i - k]; }
  }

  /** A word without the last unit of the front lies inside the front or behind it. */
  lemma WordStartsInFront(a: Text, rest: Text, k: nat, word: Text)
    requires IsFront(a) && k < |a| && a[|a| - 1] !in word
    ensures StartsWith(a + rest, k, word) <==> StartsWith(a, k, word)
    ensures StartsWith(a, k, word) ==> k + |word| < |a|
  {
    var text, last := a + rest, |a| - 1;
    assert text[last] == a[last];
    if StartsWith(text, k, word) {
      UnitsOfMatch(text, k, word, last);
      assert text[k..k + |word|] == a[k..k + |word|];
    }
    if StartsWith(a, k, word) {
      UnitsOfMatch(a, k, word, last);
      assert text[k..k + |word|] == a[k..k + |word|];
    }
  }

  /** The quote that starts the stored hash's key ends every search begun before it. */
  lemma {:induction false} NextQuoteInFront(a: Text, rest: Text, i: nat)
    requires i <= |a|
    ensures NextQuote(a + [QUOTE] + rest, i) == NextQuote(a + [QUOTE], i)
    ensures NextQuote(a + [QUOTE], i).Some? && NextQuote(a + [QUOTE], i).value <= |a|
    decreases |a| - i
  {
    if i < |a| { NextQuoteInFront(a, rest, i + 1); }
  }

  lemma ValueEndInFront(a: Text, rest: Text, i: nat)
    requires IsFront(a) && i < |a|
    ensures ValueEnd(a + [QUOTE] + rest, i) == ValueEnd(a + [QUOTE], i)
    ensures ValueEnd(a + [QUOTE], i).Some? ==> ValueEnd(a + [QUOTE], i).value <= |a| + 1
  {
    NextQuoteInFront(a, rest, i + 1);
    WordStartsInFront(a, [QUOTE], i, NULL_TEXT);
    WordStartsInFront(a, [QUOTE] + rest, i, NULL_TEXT);
    assert a + [QUOTE] + rest == a + ([QUOTE] + rest);
  }

  lemma MatchEndInFront(a: Text, rest: Text, k: nat)
    requires IsFront(a) && k < |a|
    ensures MatchEnd(a + HASH_KEY + rest, k) == MatchEnd(a + HASH_KEY, k)
    ensures MatchEnd(a + HASH_KEY, k).Some? ==> MatchEnd(a + HASH_KEY, k).value <= |a| + 2
  {
    WordStartsInFront(a, HASH_KEY, k, HASH_KEY);
    WordStartsInFront(a, HASH_KEY + rest, k, HASH_KEY);
    hide ValueEnd, StartsWith;
    assert a + HASH_KEY + rest == a + (HASH_KEY + rest);
    if StartsWith(a, k, HASH_KEY) {
      ValueEndInFront(a, HASH_KEY[1..], k + |HASH_KEY|);
      ValueEndInFront(a, HASH_KEY[1..] + rest, k + |HASH_KEY|);
      assert a + HASH_KEY == a + [QUOTE] + HASH_KEY[1..];
      assert a + HASH_KEY + rest == a + [QUOTE] + (HASH_KEY[1..] + rest);
    }
  }

  lemma CutInFront(text: Text, rest: Text, i: nat, end: nat)
    requires i <= end <= |text|
    ensures (text + rest)[..i] + (text + rest)[end..] == text[..i] + text[end..] + rest
  {
  }

  /** A match before the stored hash is what gets removed, and the stored hash stays. */
  lemma {:induction false} StripInFront(a: Text, rest: Text, i: nat, k: nat)
    requires IsFront(a) && i <= k < |a| && MatchEnd(a + HASH_KEY, k).Some?
    ensures StripFrom(a + HASH_KEY + rest, i) == StripFrom(a + HASH_KEY, i) + rest
    decreases k - i
  {
    hide MatchEnd, IsFront;
    var text := a + HASH_KEY;
    MatchEndInFront(a, rest, i);
    if MatchEnd(text, i).Some? {
      CutInFront(text, rest, i, MatchEnd(text, i).value);
    } else {
      StripInFront(a, rest, i + 1, k);
    }
  }

  lemma MatchesStoredHash(a: Text, value: Text, b: Text)
    requires IsStoredHash(value)
    ensures MatchEnd(a + HASH_KEY + value + b, |a|).Some?
    ensures var text := a + HASH_KEY + value + b;
      text[MatchEnd(text, |a|).value..] == WithoutComma(b)
  {
    var text := a + HASH_KEY + value + b;
    ValueEndsWhereItEnds(a + HASH_KEY, value, b);
    assert text[|a|..|a| + |HASH_KEY|] == HASH_KEY;
    var end := |a| + |HASH_KEY| + |value|;
    assert text[end..] == b;
    assert end < |text| ==> text[end] == b[0] && text[end + 1..] == b[1..];
  }

  /** Where the pattern first matches, it removes exactly key, value and one comma. */
  lemma StripRemovesStoredHash(a: Text, value: Text, b: Text)
    requires IsStoredHash(value)
    requires forall k :: 0 <= k < |a| ==> MatchEnd(a + HASH_KEY + value + b, k).None?
    ensures Strip(a + HASH_KEY + value + b) == a + WithoutComma(b)
  {
    var text := a + HASH_KEY + value + b;
    StripSkips(text, 0, |a|);
    MatchesStoredHash(a, value, b);
    assert text[..|a|] == a;
  }

  /** So the hash of a text does not depend on the hash stored in it, */
  lemma StoredHashIsIgnored(a: Text, value: Text, other: Text, b: Text)
    requires IsStoredHash(value) && IsStoredHash(other) && IsFront(a) && !MatchesEarlier(a)
    ensures HashText(a + HASH_KEY + value + b) == HashText(a + HASH_KEY + other + b)
  {
    Associate(a + HASH_KEY, value, b);
    Associate(a + HASH_KEY, other, b);
    forall k | 0 <= k < |a|
      ensures MatchEnd(a + HASH_KEY + value + b, k).None? && MatchEnd(a + HASH_KEY + other + b, k).None?
    {
      MatchEndInFront(a, value + b, k);
      MatchEndInFront(a, other + b, k);
    }
    StripRemovesStoredHash(a, value, b);
    StripRemovesStoredHash(a, other, b);
  }

  /** unless the pattern matches before it: then a change of one digit shows. */
  lemma StoredHashIsSeen(a: Text, b: Text, u: Unit, w: Unit)
    requires IsFront(a) && MatchesEarlier(a)
    requires IsDigit(u) && IsDigit(w) && u != w
    ensures Hex(HashText(a + HASH_KEY + [QUOTE, u, QUOTE] + b)) != Hex(HashText(a + HASH_KEY + [QUOTE, w, QUOTE] + b))
  {
    hide Fnv, Hex, Leads, StripFrom;
    var k :| 0 <= k < |a| && MatchEnd(a + HASH_KEY, k).Some?;
    var kept, front, back := Strip(a + HASH_KEY), Strip(a + HASH_KEY) + [QUOTE], [QUOTE] + b;
    StripInFront(a, [QUOTE, u, QUOTE] + b, 0, k);
    StripInFront(a, [QUOTE, w, QUOTE] + b, 0, k);
    Associate(a + HASH_KEY, [QUOTE, u, QUOTE], b);
    Associate(a + HASH_KEY, [QUOTE, w, QUOTE], b);
    assert kept + ([QUOTE, u, QUOTE] + b) == front + [u] + back;
    assert kept + ([QUOTE, w, QUOTE] + b) == front + [w] + back;
    CodePointChangeIsDetectedIff(front, [u], [w], back);
  }

  // ---- The stored hash of a definition ----------------------------------

  predicate NeedsNoEscape(s: Text) {
    forall i :: 0 <= i < |s| ==> 32 <= s[i] < 0xD800 && s[i] != QUOTE && s[i] != BACKSLASH
  }

  lemma {:induction false} UnescapedFrom(s: Text, i: nat)
    requires NeedsNoEscape(s) && i <= |s|
    ensures EscapeFrom(s, i) == s[i..]
    decreases |s| - i
  {
    if i < |s| { UnescapedFrom(s, i + 1); }
  }

  lemma QuotedAsIs(s: Text)
    requires NeedsNoEscape(s)
    ensures Quote(s) == [QUOTE] + s + [QUOTE]
  {
    UnescapedFrom(s, 0);
    assert s[0..] == s;
  }

  /** What the pattern can remove: no hash, or any string without a quote. */
  predicate IsHashValue(v: Json) {
    v.Null? || (v.Str? && QUOTE !in v.s)
  }

  lemma {:induction false} EscapesHoldNoQuote(s: Text, i: nat)
    requires i <= |s| && QUOTE !in s
    ensures QUOTE !in EscapeFrom(s, i)
    decreases |s| - i
  {
    if i < |s| {
      assert s[i] in s;
      EscapesHoldNoQuote(s, i + 1);
    }
  }

  lemma HashValueCanBeRemoved(v: Json)
    requires IsHashValue(v)
    ensures IsStoredHash(StableThemeJson(v))
  {
    if v.Str? {
      EscapesHoldNoQuote(v.s, 0);
      var value, inner := Quote(v.s), EscapeFrom(v.s, 0);
      assert forall i :: 0 < i < |value| - 1 ==> value[i] == inner[i - 1] && value[i] in inner;
    }
  }

  /** What sorting puts before and behind an entry: that depends on its key alone. */
  function InsertSplit<V>(key: Text, s: seq<Entry<V>>): (seq<Entry<V>>, seq<Entry<V>>) {
    if s == [] || KeyLeq(key, s[0].key) then ([], s)
    else var (a, b) := InsertSplit(key, s[1..]); ([s[0]] + a, b)
  }

  function ResplitAfterInsert<V>(x: Entry<V>, key: Text, a: seq<Entry<V>>, b: seq<Entry<V>>)
    : (seq<Entry<V>>, seq<Entry<V>>)
  {
    if a == [] then if KeyLeq(x.key, key) then ([x], b) else ([], Insert(x, b))
    else if KeyLeq(x.key, a[0].key) then ([x] + a, b)
    else var (c, d) := ResplitAfterInsert(x, key, a[1..], b); ([a[0]] + c, d)
  }

  function SortSplit<V>(x: seq<Entry<V>>, key: Text, y: seq<Entry<V>>): (seq<Entry<V>>, seq<Entry<V>>) {
    if x == [] then InsertSplit(key, Sort(y))
    else var (a, b) := SortSplit(x[1..], key, y); ResplitAfterInsert(x[0], key, a, b)
  }

  lemma {:induction false} InsertIsAtSplit<V>(e: Entry<V>, s: seq<Entry<V>>)
    ensures var (a, b) := InsertSplit(e.key, s); Insert(e, s) == a + [e] + b
  {
    if s != [] && !KeyLeq(e.key, s[0].key) { InsertIsAtSplit(e, s[1..]); }
  }

  lemma {:induction false} InsertKeepsSplit<V>(x: Entry<V>, e: Entry<V>, a: seq<Entry<V>>, b: seq<Entry<V>>)
    ensures var (c, d) := ResplitAfterInsert(x, e.key, a, b); Insert(x, a + [e] + b) == c + [e] + d
  {
    if a == [] {
      assert (a + [e] + b)[1..] == b;
    } else {
      InsertKeepsSplit(x, e, a[1..], b);
      assert (a + [e] + b)[1..] == a[1..] + [e] + b;
    }
  }

  lemma {:induction false} SortIsAroundSplit<V>(x: seq<Entry<V>>, e: Entry<V>, y: seq<Entry<V>>)
    ensures var (a, b) := SortSplit(x, e.key, y); Sort(x + [e] + y) == a + [e] + b
  {
    if x == [] {
      InsertIsAtSplit(e, Sort(y));
      assert (x + [e] + y)[1..] == y;
    } else {
      SortIsAroundSplit(x[1..], e, y);
      var (a, b) := SortSplit(x[1..], e.key, y);
      InsertKeepsSplit(x[0], e, a, b);
      assert (x + [e] + y)[1..] == x[1..] + [e] + y;
    }
  }

  lemma {:induction false} EntriesConcat(x: seq<Entry<Json>>, y: seq<Entry<Json>>)
    ensures StableEntries(x + y) == StableEntries(x) + StableEntries(y)
  {
    hide StableThemeJson;
    if x == [] {
      assert x + y == y;
    } else {
      EntriesConcat(x[1..], y);
      assert (x + y)[0] == x[0] && (x + y)[1..] == x[1..] + y;
      var e := Entry(x[0].key, StableThemeJson(x[0].value));
      assert [e] + (StableEntries(x[1..]) + StableEntries(y)) == [e] + StableEntries(x[1..]) + StableEntries(y);
    }
  }

  function Field(e: Entry<Text>): Text {
    Quote(e.key) + [COLON] + e.value
  }

  /** Entries with a comma behind each. */
  function JoinFront(entries: seq<Entry<Text>>): Text {
    if entries == [] then [] else Field(entries[0]) + ([COMMA] + JoinFront(entries[1..]))
  }

  function JoinBack(entries: seq<Entry<Text>>): Text {
    if entries == [] then [] else [COMMA] + JoinEntries(entries)
  }

  lemma Nested(f: Text, c: Text, x: Text, r: Text)
    ensures (f + (c + x)) + r == f + (c + (x + r))
  {
  }

  lemma JoinFirst(entries: seq<Entry<Text>>)
    requires entries != []
    ensures JoinEntries(entries) == Field(entries[0]) + JoinBack(entries[1..])
  {
  }

  lemma {:induction false} JoinedAround(a: seq<Entry<Text>>, e: Entry<Text>, b: seq<Entry<Text>>)
    ensures JoinEntries(a + [e] + b) == JoinFront(a) + (Field(e) + JoinBack(b))
  {
    hide Field, JoinEntries;
    var all := a + [e] + b;
    JoinFirst(all);
    if a == [] {
      assert all[1..] == b && all[0] == e;
      assert [] + (Field(e) + JoinBack(b)) == Field(e) + JoinBack(b);
    } else {
      JoinedAround(a[1..], e, b);
      assert all[1..] == a[1..] + [e] + b && all[0] == a[0];
      Nested(Field(a[0]), [COMMA], JoinFront(a[1..]), Field(e) + JoinBack(b));
    }
  }

  function WithHash(x: seq<Entry<Json>>, v: Json, y: seq<Entry<Json>>): Json {
    Obj(x + [Entry(HASH_NAME, v)] + y)
  }

  /** The stable text before and behind the stored hash and its key. */
  function HashFront(x: seq<Entry<Json>>, y: seq<Entry<Json>>): Text {
    [OPEN_BRACE] + JoinFront(SortSplit(StableEntries(x), HASH_NAME, StableEntries(y)).0)
  }

  function HashBack(x: seq<Entry<Json>>, y: seq<Entry<Json>>): Text {
    JoinBack(SortSplit(StableEntries(x), HASH_NAME, StableEntries(y)).1) + [CLOSE_BRACE]
  }

  /** Whatever hash is stored, the rest of the stable text is the same. */
  lemma TextsShareTheirFrame(x: seq<Entry<Json>>, v: Json, y: seq<Entry<Json>>)
    ensures StableThemeJson(WithHash(x, v, y)) == HashFront(x, y) + HASH_KEY + StableThemeJson(v) + HashBack(x, y)
  {
    hide Sort, SortSplit, StableEntries, JoinEntries, JoinFront, JoinBack, Quote;
    var value := StableThemeJson(v);
    var (c, d) := SortSplit(StableEntries(x), HASH_NAME, StableEntries(y));
    EntriesWithHash(x, v, y);
    SortIsAroundSplit(StableEntries(x), Entry(HASH_NAME, value), StableEntries(y));
    JoinedAround(c, Entry(HASH_NAME, value), d);
    KeyOfHash();
    Regrouped([OPEN_BRACE], JoinFront(c), HASH_KEY, value, JoinBack(d), [CLOSE_BRACE]);
  }

  lemma EntriesWithHash(x: seq<Entry<Json>>, v: Json, y: seq<Entry<Json>>)
    ensures StableEntries(x + [Entry(HASH_NAME, v)] + y)
            == StableEntries(x) + [Entry(HASH_NAME, StableThemeJson(v))] + StableEntries(y)
  {
    EntriesConcat(x + [Entry(HASH_NAME, v)], y);
    EntriesConcat(x, [Entry(HASH_NAME, v)]);
  }

  lemma KeyOfHash()
    ensures Quote(HASH_NAME) + [COLON] == HASH_KEY
  {
    hide Quote;
    QuotedAsIs(HASH_NAME);
    assert [QUOTE] + HASH_NAME + [QUOTE] + [COLON] == HASH_KEY;
  }

  lemma Regrouped(open: Text, front: Text, key: Text, value: Text, back: Text, close: Text)
    ensures open + (front + (key + value + back)) + close == open + front + key + value + (back + close)
  {
  }

  lemma {:induction false} JoinFrontEnds(entries: seq<Entry<Text>>)
    requires entries != []
    ensures JoinFront(entries) != [] && JoinFront(entries)[|JoinFront(entries)| - 1] == COMMA
  {
    if |entries| > 1 { JoinFrontEnds(entries[1..]); }
  }

  lemma HashFrontIsFront(x: seq<Entry<Json>>, y: seq<Entry<Json>>)
    ensures IsFront(HashFront(x, y))
  {
    hide SortSplit, StableEntries, Field;
    var c := SortSplit(StableEntries(x), HASH_NAME, StableEntries(y)).0;
    if c != [] { JoinFrontEnds(c); }
  }

  ghost predicate IgnoresStoredHash(x: seq<Entry<Json>>, y: seq<Entry<Json>>) {
    forall v, w :: IsHashValue(v) && IsHashValue(w) ==> HashOf(WithHash(x, v, y)) == HashOf(WithHash(x, w, y))
  }

  /**
   * The hash of a definition does not depend on the hash stored in it exactly
   * when the pattern finds nothing in the members that sort before it.
   */
  lemma StoredHashDoesNotMatterIff(x: seq<Entry<Json>>, y: seq<Entry<Json>>)
    ensures IgnoresStoredHash(x, y) <==> !MatchesEarlier(HashFront(x, y))
  {
    hide HashFront, HashBack, WithHash, Hex, HashText, StableThemeJson, MatchesEarlier, IsFront, IsStoredHash;
    var a, b := HashFront(x, y), HashBack(x, y);
    HashFrontIsFront(x, y);
    if MatchesEarlier(a) {
      StoredHashIsSeen(a, b, ZERO, ZERO + 1);
      DigitIsHashValue(x, ZERO, y);
      DigitIsHashValue(x, ZERO + 1, y);
    } else {
      forall v, w | IsHashValue(v) && IsHashValue(w)
        ensures HashOf(WithHash(x, v, y)) == HashOf(WithHash(x, w, y))
      {
        TextsShareTheirFrame(x, v, y);
        TextsShareTheirFrame(x, w, y);
        HashValueCanBeRemoved(v);
        HashValueCanBeRemoved(w);
        StoredHashIsIgnored(a, StableThemeJson(v), StableThemeJson(w), b);
      }
    }
  }

  lemma DigitIsHashValue(x: seq<Entry<Json>>, u: Unit, y: seq<Entry<Json>>)
    requires IsDigit(u)
    ensures IsHashValue(Str([u]))
    ensures StableThemeJson(WithHash(x, Str([u]), y)) == HashFront(x, y) + HASH_KEY + [QUOTE, u, QUOTE] + HashBack(x, y)
  {
    hide HashFront, HashBack, WithHash;
    TextsShareTheirFrame(x, Str([u]), y);
    QuotedAsIs([u]);
    assert [QUOTE] + [u] + [QUOTE] == [QUOTE, u, QUOTE];
  }
}
