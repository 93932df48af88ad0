/** Small types shared by the other modules. */
module Common {

  datatype Option<+T> = None | Some(value: T)

  function Init<T>(s: seq<T>): seq<T> requires s != [] { s[..|s| - 1] }

  function Last<T>(s: seq<T>): T requires s != [] { s[|s| - 1] }

  /** Whole seconds in a span of milliseconds, truncated toward zero. */
  function WholeSeconds(milliseconds: int): int {
    if milliseconds >= 0 then milliseconds / 1000 else -(-milliseconds / 1000)
  }

  /** Elements of `s` that satisfy `p`, in their original order. */
  function Filter<T(!new)>(s: seq<T>, p: T -> bool): (r: seq<T>)
    ensures forall x :: x in r <==> x in s && p(x)
    ensures |r| <= |s|
  {
    if s == [] then []
    else (if p(s[0]) then [s[0]] else []) + Filter(s[1..], p)
  }

  lemma {:induction false} FilterConcat<T(!new)>(s: seq<T>, t: seq<T>, p: T -> bool)
    ensures Filter(s + t, p) == Filter(s, p) + Filter(t, p)
  {
    if s == [] {
      assert s + t == t;
    } else {
      assert (s + t)[1..] == s[1..] + t;
      FilterConcat(s[1..], t, p);
    }
  }

  lemma {:induction false} FilterSnoc<T(!new)>(s: seq<T>, x: T, p: T -> bool)
    ensures Filter(s + [x], p) == if p(x) then Filter(s, p) + [x] else Filter(s, p)
  {
    FilterConcat(s, [x], p);
    assert [x][1..] == [];
    assert Filter([x], p) == if p(x) then [x] else [];
  }

  lemma FirstIsElement<T>(s: seq<T>)
    ensures s == [] || s[0] in s
  {
  }
}
