/**
 * stableThemeJson of packages/themes/src/index.ts: two JSON trees
 * get the same text exactly when they are equal up to the order of object keys.
 */
module CanonicalTheme {
  import opened Common
  import opened JsonNumbers
  import opened ThemeJson

  // ---- Sorting by key ---------------------------------------------------

  /** The order of Array.prototype.sort on strings: by code units, prefixes first. */
  predicate KeyLeq(a: Text, b: Text) {
    a == [] || (b != [] && (a[0] < b[0] || (a[0] == b[0] && KeyLeq(a[1..], b[1..]))))
  }

  function Insert<V>(e: Entry<V>, s: seq<Entry<V>>): seq<Entry<V>> {
    if s == [] then [e]
    else if KeyLeq(e.key, s[0].key) then [e] + s
    else [s[0]] + Insert(e, s[1..])
  }

  function Sort<V>(s: seq<Entry<V>>): seq<Entry<V>> {
    if s == [] then [] else Insert(s[0], Sort(s[1..]))
  }

  ghost predicate Sorted<V>(s: seq<Entry<V>>) {
    forall i, j :: 0 <= i < j < |s| ==> KeyLeq(s[i].key, s[j].key)
  }

  ghost predicate DistinctKeys<V>(s: seq<Entry<V>>) {
    forall i, j :: 0 <= i < j < |s| ==> s[i].key != s[j].key
  }

  ghost predicate HasKey<V>(s: seq<Entry<V>>, key: Text) {
    exists i :: 0 <= i < |s| && s[i].key == key
  }

  /** The first unit in which two keys differ decides; a proper prefix goes first. */
  lemma {:induction false} KeyLeqIff(a: Text, b: Text)
    ensures KeyLeq(a, b) <==>
            a <= b || exists i :: 0 <= i < |a| && i < |b| && a[..i] == b[..i] && a[i] < b[i]
  {
    if a != [] && b != [] && a[0] == b[0] {
      KeyLeqIff(a[1..], b[1..]);
      assert a == [a[0]] + a[1..] && b == [a[0]] + b[1..];
      if i :| 0 <= i < |a[1..]| && i < |b[1..]| && a[1..][..i] == b[1..][..i] && a[1..][i] < b[1..][i] {
        assert a[..i + 1] == [a[0]] + a[1..][..i] && b[..i + 1] == [a[0]] + b[1..][..i];
        assert a[i + 1] < b[i + 1];
      }
      if i :| 0 <= i < |a| && i < |b| && a[..i] == b[..i] && a[i] < b[i] {
        assert a[1..][..i - 1] == a[..i][1..] && b[1..][..i - 1] == b[..i][1..];
        assert a[1..][i - 1] < b[1..][i - 1];
      }
    }
  }

  lemma {:induction false} KeyLeqTotal(a: Text, b: Text)
    ensures KeyLeq(a, b) || KeyLeq(b, a)
  {
    if a != [] && b != [] { KeyLeqTotal(a[1..], b[1..]); }
  }

  lemma {:induction false} KeyLeqAntisymmetric(a: Text, b: Text)
    requires KeyLeq(a, b) && KeyLeq(b, a)
    ensures a == b
  {
    if a != [] && b != [] {
      KeyLeqAntisymmetric(a[1..], b[1..]);
      assert a == [a[0]] + a[1..] && b == [b[0]] + b[1..];
    }
  }

  lemma {:induction false} KeyLeqTransitive(a: Text, b: Text, c: Text)
    requires KeyLeq(a, b) && KeyLeq(b, c)
    ensures KeyLeq(a, c)
  {
    if a != [] && b != [] && c != [] && a[0] == b[0] == c[0] {
      KeyLeqTransitive(a[1..], b[1..], c[1..]);
    }
  }

  lemma {:induction false} InsertKeepsElements<V>(e: Entry<V>, s: seq<Entry<V>>)
    ensures multiset(Insert(e, s)) == multiset{e} + multiset(s)
  {
    if s != [] && !KeyLeq(e.key, s[0].key) {
      InsertKeepsElements(e, s[1..]);
      assert s == [s[0]] + s[1..];
    }
  }

  lemma {:induction false} SortKeepsElements<V>(s: seq<Entry<V>>)
    ensures multiset(Sort(s)) == multiset(s)
  {
    if s != [] {
      SortKeepsElements(s[1..]);
      InsertKeepsElements(s[0], Sort(s[1..]));
      assert s == [s[0]] + s[1..];
    }
  }

  lemma {:induction false} InsertKeepsSorted<V>(e: Entry<V>, s: seq<Entry<V>>)
    requires Sorted(s)
    ensures Sorted(Insert(e, s))
  {
    if s == [] {
    } else if KeyLeq(e.key, s[0].key) {
      forall j | 0 <= j < |s|
        ensures KeyLeq(e.key, s[j].key)
      {
        if j > 0 { KeyLeqTransitive(e.key, s[0].key, s[j].key); }
      }
    } else {
      KeyLeqTotal(e.key, s[0].key);
      InsertKeepsSorted(e, s[1..]);
      InsertKeepsElements(e, s[1..]);
      var rest := Insert(e, s[1..]);
      forall j | 0 <= j < |rest|
        ensures KeyLeq(s[0].key, rest[j].key)
      {
        assert rest[j] in multiset(rest);
        assert rest[j] == e || rest[j] in multiset(s[1..]);
      }
    }
  }

  lemma {:induction false} SortSorts<V>(s: seq<Entry<V>>)
    ensures Sorted(Sort(s))
  {
    if s != [] {
      SortSorts(s[1..]);
      InsertKeepsSorted(s[0], Sort(s[1..]));
    }
  }

  /** Same elements, so distinct keys stay distinct. */
  lemma PermutationKeepsDistinctKeys<V>(s: seq<Entry<V>>, t: seq<Entry<V>>)
    requires multiset(s) == multiset(t) && DistinctKeys(s)
    ensures DistinctKeys(t)
  {
    forall i, j | 0 <= i < j < |t|
      ensures t[i].key != t[j].key
    {
      OccursOnce(s, t[i]);
      TwoPositions(t, i, j);
      assert t[i] in multiset(t) && t[j] in multiset(t);
      var k :| 0 <= k < |s| && s[k] == t[i];
      var l :| 0 <= l < |s| && s[l] == t[j];
    }
  }

  lemma {:induction false} OccursOnce<V>(s: seq<Entry<V>>, e: Entry<V>)
    requires DistinctKeys(s)
    ensures multiset(s)[e] <= 1
  {
    if s != [] {
      OccursOnce(s[1..], e);
      assert s == [s[0]] + s[1..];
      if s[0] == e {
        assert e !in s[1..];
      }
    }
  }

  lemma TwoPositions<V>(t: seq<Entry<V>>, i: nat, j: nat)
    requires i < j < |t|
    ensures t[i] == t[j] ==> multiset(t)[t[i]] >= 2
  {
    assert t == t[..j] + [t[j]] + t[j + 1..];
    assert t[i] in t[..j];
  }

  lemma RestHasTheOthers<V>(s: seq<Entry<V>>)
    requires s != [] && DistinctKeys(s)
    ensures forall e :: e in s[1..] <==> e in s && e != s[0]
  {
    assert s == [s[0]] + s[1..];
  }

  /** Sorted sequences with distinct keys and the same elements are equal. */
  lemma {:induction false} SortedIsUnique<V>(s: seq<Entry<V>>, t: seq<Entry<V>>)
    requires Sorted(s) && Sorted(t) && DistinctKeys(s) && DistinctKeys(t)
    requires forall e :: e in s <==> e in t
    ensures s == t
  {
    FirstIsElement(t);
    if s != [] {
      FirstIsElement(s);
      var k :| 0 <= k < |t| && t[k] == s[0];
      var l :| 0 <= l < |s| && s[l] == t[0];
      if k > 0 && l > 0 {
        KeyLeqAntisymmetric(s[0].key, t[0].key);
      }
      assert s[0] == t[0];
      RestHasTheOthers(s);
      RestHasTheOthers(t);
      SortedIsUnique(s[1..], t[1..]);
      assert s == [s[0]] + s[1..] && t == [t[0]] + t[1..];
    }
  }

  // ---- Canonical text ---------------------------------------------------

  /** stableThemeJson: arrays in order, objects by sorted keys, the rest as JSON.stringify. */
  function StableThemeJson(v: Json): Text {
    match v
    case Arr(items) => [OPEN_BRACKET] + StableItems(items) + [CLOSE_BRACKET]
    case Obj(members) => [OPEN_BRACE] + JoinEntries(Sort(StableEntries(members))) + [CLOSE_BRACE]
    case _ => Print(v)
  }

  function StableItems(items: seq<Json>): Text {
    if items == [] then []
    else StableThemeJson(items[0]) + (if |items| == 1 then [] else [COMMA] + StableItems(items[1..]))
  }

  function StableEntries(members: seq<Entry<Json>>): seq<Entry<Text>> {
    if members == [] then []
    else [Entry(members[0].key, StableThemeJson(members[0].value))] + StableEntries(members[1..])
  }

  function JoinEntries(entries: seq<Entry<Text>>): Text {
    if entries == [] then []
    else
      Quote(entries[0].key) + [COLON] + entries[0].value
      + (if |entries| == 1 then [] else [COMMA] + JoinEntries(entries[1..]))
  }

  /** The same tree with every object's members sorted. */
  function Canon(v: Json): Json {
    match v
    case Arr(items) => Arr(CanonItems(items))
    case Obj(members) => Obj(Sort(CanonEntries(members)))
    case _ => v
  }

  function CanonItems(items: seq<Json>): (r: seq<Json>)
    ensures |r| == |items|
    ensures forall i :: 0 <= i < |items| ==> r[i] == Canon(items[i])
  {
    if items == [] then [] else [Canon(items[0])] + CanonItems(items[1..])
  }

  function CanonEntries(members: seq<Entry<Json>>): (r: seq<Entry<Json>>)
    ensures |r| == |members|
    ensures forall i :: 0 <= i < |members| ==> r[i] == Entry(members[i].key, Canon(members[i].value))
  {
    if members == [] then [] else [Entry(members[0].key, Canon(members[0].value))] + CanonEntries(members[1..])
  }

  function PrintedEntries(members: seq<Entry<Json>>): seq<Entry<Text>> {
    if members == [] then []
    else [Entry(members[0].key, Print(members[0].value))] + PrintedEntries(members[1..])
  }

  lemma {:induction false} JoiningPrintedEntries(members: seq<Entry<Json>>)
    ensures |PrintedEntries(members)| == |members|
    ensures JoinEntries(PrintedEntries(members)) == PrintMembers(members)
  {
    if members != [] {
      JoiningPrintedEntries(members[1..]);
      assert PrintedEntries(members)[1..] == PrintedEntries(members[1..]);
    }
  }

  lemma {:induction false} InsertingPrinted(e: Entry<Json>, s: seq<Entry<Json>>)
    ensures Insert(Entry(e.key, Print(e.value)), PrintedEntries(s)) == PrintedEntries(Insert(e, s))
  {
    if s != [] {
      assert PrintedEntries(s)[1..] == PrintedEntries(s[1..]);
      if KeyLeq(e.key, s[0].key) {
        assert ([e] + s)[1..] == s;
      } else {
        InsertingPrinted(e, s[1..]);
        assert ([s[0]] + Insert(e, s[1..]))[1..] == Insert(e, s[1..]);
      }
    }
  }

  /** Sorting does not look at values, so it commutes with printing them. */
  lemma {:induction false} SortingPrinted(s: seq<Entry<Json>>)
    ensures Sort(PrintedEntries(s)) == PrintedEntries(Sort(s))
  {
    if s != [] {
      SortingPrinted(s[1..]);
      assert PrintedEntries(s)[1..] == PrintedEntries(s[1..]);
      InsertingPrinted(s[0], Sort(s[1..]));
    }
  }

  /** The stable text is the plain text of the canonical tree. */
  lemma {:induction false} StableIsPrintedCanon(v: Json)
    ensures StableThemeJson(v) == Print(Canon(v))
    decreases v, 1
  {
    match v {
      case Arr(items) => StableItemsArePrinted(v, items);
      case Obj(members) =>
        StableEntriesArePrinted(v, members);
        SortingPrinted(CanonEntries(members));
        JoiningPrintedEntries(Sort(CanonEntries(members)));
      case _ =>
    }
  }

  lemma {:induction false} StableItemsArePrinted(v: Json, items: seq<Json>)
    requires forall i :: 0 <= i < |items| ==> items[i] < v
    ensures StableItems(items) == PrintItems(CanonItems(items))
    decreases v, 0, |items|
  {
    if items != [] {
      StableIsPrintedCanon(items[0]);
      StableItemsArePrinted(v, items[1..]);
      assert CanonItems(items)[1..] == CanonItems(items[1..]);
    }
  }

  lemma {:induction false} StableEntriesArePrinted(v: Json, members: seq<Entry<Json>>)
    requires forall i :: 0 <= i < |members| ==> members[i].value < v
    ensures StableEntries(members) == PrintedEntries(CanonEntries(members))
    decreases v, 0, |members|
  {
    if members != [] {
      StableIsPrintedCanon(members[0].value);
      StableEntriesArePrinted(v, members[1..]);
      assert CanonEntries(members)[1..] == CanonEntries(members[1..]);
    }
  }

  // ---- Equality up to key order -----------------------------------------

  /** No object has the same key twice. */
  ghost predicate WellFormed(v: Json) {
    match v
    case Arr(items) => forall i :: 0 <= i < |items| ==> WellFormed(items[i])
    case Obj(members) =>
      DistinctKeys(members) && forall i :: 0 <= i < |members| ==> WellFormed(members[i].value)
    case _ => true
  }

  ghost predicate Equivalent(v: Json, w: Json) {
    if v.Arr? && w.Arr? then
      |v.items| == |w.items| && forall i :: 0 <= i < |v.items| ==> Equivalent(v.items[i], w.items[i])
    else if v.Obj? && w.Obj? then
      && (forall key :: HasKey(v.members, key) <==> HasKey(w.members, key))
      && forall i, j :: 0 <= i < |v.members| && 0 <= j < |w.members| && v.members[i].key == w.members[j].key ==>
           Equivalent(v.members[i].value, w.members[j].value)
    else v == w
  }

  lemma CanonEntriesKeepKeys(members: seq<Entry<Json>>)
    requires DistinctKeys(members)
    ensures DistinctKeys(CanonEntries(members))
    ensures DistinctKeys(Sort(CanonEntries(members))) && Sorted(Sort(CanonEntries(members)))
    ensures forall e :: e in Sort(CanonEntries(members)) <==> e in CanonEntries(members)
  {
    var c := CanonEntries(members);
    SortKeepsElements(c);
    SortSorts(c);
    PermutationKeepsDistinctKeys(c, Sort(c));
    forall e ensures e in Sort(c) <==> e in c {
      assert e in Sort(c) <==> e in multiset(Sort(c));
      assert e in c <==> e in multiset(c);
    }
  }

  lemma {:induction false} EquivalentHaveSameCanon(v: Json, w: Json)
    requires WellFormed(v) && WellFormed(w) && Equivalent(v, w)
    ensures Canon(v) == Canon(w)
  {
    if v.Arr? && w.Arr? {
      forall i | 0 <= i < |v.items| ensures Canon(v.items[i]) == Canon(w.items[i]) {
        EquivalentHaveSameCanon(v.items[i], w.items[i]);
      }
    } else if v.Obj? && w.Obj? {
      var m, n := v.members, w.members;
      CanonEntriesKeepKeys(m);
      CanonEntriesKeepKeys(n);
      forall i, j | 0 <= i < |m| && 0 <= j < |n| && m[i].key == n[j].key
        ensures CanonEntries(m)[i] == CanonEntries(n)[j]
      {
        EquivalentHaveSameCanon(m[i].value, n[j].value);
      }
      EntriesCarryOver(m, n);
      EntriesCarryOver(n, m);
      SortedIsUnique(Sort(CanonEntries(m)), Sort(CanonEntries(n)));
    }
  }

  lemma EntriesCarryOver(m: seq<Entry<Json>>, n: seq<Entry<Json>>)
    requires forall key :: HasKey(m, key) ==> HasKey(n, key)
    requires forall i, j :: 0 <= i < |m| && 0 <= j < |n| && m[i].key == n[j].key ==>
               CanonEntries(m)[i] == CanonEntries(n)[j]
    ensures forall e :: e in CanonEntries(m) ==> e in CanonEntries(n)
  {
    forall i | 0 <= i < |m| ensures CanonEntries(m)[i] in CanonEntries(n) {
      assert HasKey(m, m[i].key);
      assert HasKey(n, m[i].key);
      var j :| 0 <= j < |n| && n[j].key == m[i].key;
      assert CanonEntries(n)[j] == CanonEntries(m)[i];
    }
  }

  lemma {:induction false} SameCanonAreEquivalent(v: Json, w: Json)
    requires WellFormed(v) && WellFormed(w) && Canon(v) == Canon(w)
    ensures Equivalent(v, w)
  {
    if v.Arr? && w.Arr? {
      forall i | 0 <= i < |v.items| ensures Equivalent(v.items[i], w.items[i]) {
        assert CanonItems(v.items)[i] == CanonItems(w.items)[i];
        SameCanonAreEquivalent(v.items[i], w.items[i]);
      }
    } else if v.Obj? && w.Obj? {
      var m, n := v.members, w.members;
      CanonEntriesKeepKeys(m);
      CanonEntriesKeepKeys(n);
      assert forall e :: e in CanonEntries(m) <==> e in CanonEntries(n);
      KeysOfCanonEntries(m);
      KeysOfCanonEntries(n);
      forall i, j | 0 <= i < |m| && 0 <= j < |n| && m[i].key == n[j].key
        ensures Equivalent(m[i].value, n[j].value)
      {
        assert CanonEntries(m)[i] in CanonEntries(n);
        var k :| 0 <= k < |n| && CanonEntries(n)[k] == CanonEntries(m)[i];
        assert k == j;
        SameCanonAreEquivalent(m[i].value, n[j].value);
      }
    }
  }

  lemma KeysOfCanonEntries(m: seq<Entry<Json>>)
    ensures forall key :: HasKey(m, key) <==> exists e :: e in CanonEntries(m) && e.key == key
  {
    forall key ensures HasKey(m, key) <==> exists e :: e in CanonEntries(m) && e.key == key {
      if HasKey(m, key) {
        var i :| 0 <= i < |m| && m[i].key == key;
        assert CanonEntries(m)[i] in CanonEntries(m);
      }
      if e :| e in CanonEntries(m) && e.key == key {
        var i :| 0 <= i < |m| && CanonEntries(m)[i] == e;
        assert m[i].key == key;
      }
    }
  }

  /** The printer is canonical and injective: same text exactly for equivalent trees. */
  lemma StableTextDecidesEquivalence(v: Json, w: Json)
    requires WellFormed(v) && WellFormed(w)
    ensures StableThemeJson(v) == StableThemeJson(w) <==> Equivalent(v, w)
  {
    StableIsPrintedCanon(v);
    StableIsPrintedCanon(w);
    if Equivalent(v, w) {
      EquivalentHaveSameCanon(v, w);
    }
    if StableThemeJson(v) == StableThemeJson(w) {
      assert Print(Canon(v)) + [] == Print(Canon(w)) + [];
      PrintIsUnambiguous(Canon(v), Canon(w), [], []);
      SameCanonAreEquivalent(v, w);
    }
  }
}
