/** Small value types shared by every part of the recalculation core. */
module Values {

  /** The conventional optional value. */
  datatype Option<+T> = None | Some(value: T) {

    /** The carried value, or `default` when there is none. */
    function GetOr(default: T): T {
      match this
      case Some(v) => v
      case None => default
    }
  }

  /** A JavaScript property slot: the property is `undefined`, holds `null`, or holds a value. */
  datatype Slot<+V> = Undefined | Null | Defined(value: V) {

    /** The nullish-coalescing operator `this ?? fallback`. */
    function OrElse(fallback: Slot<V>): Slot<V> {
      if Defined? then this else fallback
    }
  }

  /** The outcome of a call into foreign code that may throw. */
  datatype Outcome<+T> = Returned(value: T) | Threw

  /** JavaScript truthiness of an optional string: absent and "" are falsy. */
  predicate Truthy(s: Option<string>) {
    s.Some? && s.value != ""
  }

  /** No element occurs twice. */
  ghost predicate NoDup<T>(s: seq<T>) {
    forall i, j :: 0 <= i < j < |s| ==> s[i] != s[j]
  }

  lemma NoDupAppend<T>(a: seq<T>, b: seq<T>)
    requires NoDup(a) && NoDup(b)
    requires forall x :: x in a ==> x !in b
    ensures NoDup(a + b)
  {
    forall i, j | 0 <= i < j < |a + b| ensures (a + b)[i] != (a + b)[j] {
      if i < |a| && j >= |a| {
        assert (a + b)[i] in a && (a + b)[j] == b[j - |a|];
      }
    }
  }

  /** The two parts of a sequence without repetitions have none, and share no element. */
  lemma NoDupParts<T>(a: seq<T>, b: seq<T>)
    requires NoDup(a + b)
    ensures NoDup(a) && NoDup(b)
    ensures forall x :: x in a ==> x !in b
  {
    assert forall i :: 0 <= i < |a| ==> (a + b)[i] == a[i];
    assert forall j :: 0 <= j < |b| ==> (a + b)[|a| + j] == b[j];
  }

  /**
   * The position of the last occurrence of `x`: what an object used as an index returns when
   * later assignments to a key overwrite earlier ones.
   */
  function LastIndex<T(==)>(s: seq<T>, x: T): (r: Option<nat>)
    ensures r.Some? ==> r.value < |s| && s[r.value] == x
    ensures r.Some? ==> forall j :: r.value < j < |s| ==> s[j] != x
    ensures r.None? <==> x !in s
  {
    if |s| == 0 then None
    else if s[|s| - 1] == x then Some(|s| - 1)
    else LastIndex(s[..|s| - 1], x)
  }

  /** In a sequence without repetitions, every element occurs once. */
  lemma {:induction false} MultisetOfNoDup<T>(s: seq<T>, x: T)
    requires NoDup(s)
    ensures multiset(s)[x] == if x in s then 1 else 0
    decreases |s|
  {
    if |s| > 0 {
      assert s == [s[0]] + s[1..];
      MultisetOfNoDup(s[1..], x);
    }
  }

  /** A sequence whose elements each occur at most once has no repetitions. */
  lemma {:induction false} NoDupOfCounts<T>(s: seq<T>)
    requires forall x :: multiset(s)[x] <= 1
    ensures NoDup(s)
    decreases |s|
  {
    if |s| > 0 {
      assert s == [s[0]] + s[1..];
      assert forall x :: multiset(s)[x] == multiset([s[0]])[x] + multiset(s[1..])[x];
      NoDupOfCounts(s[1..]);
      assert s[0] !in multiset(s[1..]);
    }
  }

  /** A sub-multiset of a sequence without repetitions has none either. */
  lemma NoDupOfSubMultiset<T>(a: seq<T>, b: seq<T>)
    requires multiset(a) <= multiset(b) && NoDup(b)
    ensures NoDup(a)
  {
    forall x ensures multiset(a)[x] <= 1 {
      MultisetOfNoDup(b, x);
    }
    NoDupOfCounts(a);
  }

  /** `s` with one leading formula marker '=' removed, if present. */
  function StripMarker(formula: string): string {
    if |formula| > 0 && formula[0] == '=' then formula[1..] else formula
  }

  /** `"=" + f` loses exactly its marker; a formula without a marker is passed on unchanged. */
  lemma StripMarkerSpec(f: string)
    ensures StripMarker("=" + f) == f
    ensures (|f| == 0 || f[0] != '=') ==> StripMarker(f) == f
  {
    assert ("=" + f)[1..] == f;
  }
}
