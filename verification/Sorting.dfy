/** Stable sorting by a total preorder, as the standard library's `sort_by` and `sort_by_key` promise it. */
module Sorting {

  type Order<!T> = (T, T) -> bool

  /** Any two elements compare, and comparing is transitive. */
  ghost predicate Preorder<T(!new)>(le: Order<T>) {
    && (forall x, y :: le(x, y) || le(y, x))
    && (forall x, y, z :: le(x, y) && le(y, z) ==> le(x, z))
  }

  function Insert<T>(x: T, s: seq<T>, le: Order<T>): seq<T> {
    if s == [] || le(x, s[0]) then [x] + s else [s[0]] + Insert(x, s[1..], le)
  }

  function Sort<T>(s: seq<T>, le: Order<T>): seq<T> {
    if s == [] then [] else Insert(s[0], Sort(s[1..], le), le)
  }

  ghost predicate Sorted<T>(s: seq<T>, le: Order<T>) {
    forall i, j | 0 <= i < j < |s| :: le(s[i], s[j])
  }

  predicate Ties<T>(x: T, y: T, le: Order<T>) {
    le(x, y) && le(y, x)
  }

  /** The elements that tie with x, in order. */
  function TiedWith<T>(s: seq<T>, le: Order<T>, x: T): seq<T> {
    if s == [] then [] else (if Ties(s[0], x, le) then [s[0]] else []) + TiedWith(s[1..], le, x)
  }

  /** `r` is the stable sort of `s`: ordered, and elements that tie keep their order. */
  ghost predicate IsStableSort<T(!new)>(r: seq<T>, s: seq<T>, le: Order<T>) {
    Sorted(r, le) && forall x :: TiedWith(r, le, x) == TiedWith(s, le, x)
  }

  lemma {:induction false} InsertPermutes<T>(x: T, s: seq<T>, le: Order<T>)
    ensures multiset(Insert(x, s, le)) == multiset{x} + multiset(s)
  {
    if s != [] && !le(x, s[0]) {
      InsertPermutes(x, s[1..], le);
      assert s == [s[0]] + s[1..];
    }
  }

  ghost predicate AtLeast<T>(s: seq<T>, le: Order<T>, x: T) {
    forall i | 0 <= i < |s| :: le(x, s[i])
  }

  lemma {:induction false} InsertAtLeast<T>(x: T, s: seq<T>, le: Order<T>, y: T)
    requires AtLeast(s, le, y) && le(y, x)
    ensures AtLeast(Insert(x, s, le), le, y)
  {
    if s != [] && !le(x, s[0]) {
      InsertAtLeast(x, s[1..], le, y);
    }
  }

  lemma SortedCons<T>(x: T, s: seq<T>, le: Order<T>)
    ensures Sorted([x] + s, le) <==> AtLeast(s, le, x) && Sorted(s, le)
  {
    var all := [x] + s;
    if Sorted(all, le) {
      forall i | 0 <= i < |s| ensures le(x, s[i]) {
        assert all[0] == x && all[i + 1] == s[i];
      }
      forall i, j | 0 <= i < j < |s| ensures le(s[i], s[j]) {
        assert all[i + 1] == s[i] && all[j + 1] == s[j];
      }
    }
  }

  lemma AtLeastTransitive<T(!new)>(s: seq<T>, le: Order<T>, x: T, y: T)
    requires Preorder(le) && AtLeast(s, le, y) && le(x, y)
    ensures AtLeast(s, le, x)
  {}

  lemma {:induction false} InsertIsSorted<T(!new)>(x: T, s: seq<T>, le: Order<T>)
    requires Preorder(le) && Sorted(s, le)
    ensures Sorted(Insert(x, s, le), le)
  {
    if s == [] {
    } else {
      assert s == [s[0]] + s[1..];
      SortedCons(s[0], s[1..], le);
      if le(x, s[0]) {
        AtLeastTransitive(s[1..], le, x, s[0]);
        SortedCons(x, s, le);
      } else {
        InsertIsSorted(x, s[1..], le);
        InsertAtLeast(x, s[1..], le, s[0]);
        SortedCons(s[0], Insert(x, s[1..], le), le);
      }
    }
  }

  lemma TiedCons<T>(x: T, s: seq<T>, le: Order<T>, y: T)
    ensures TiedWith([x] + s, le, y) == (if Ties(x, y, le) then [x] else []) + TiedWith(s, le, y)
  {
    assert ([x] + s)[1..] == s;
  }

  lemma {:induction false} InsertIsStable<T(!new)>(x: T, s: seq<T>, le: Order<T>, y: T)
    requires Preorder(le)
    ensures TiedWith(Insert(x, s, le), le, y) == (if Ties(x, y, le) then [x] else []) + TiedWith(s, le, y)
  {
    TiedCons(x, s, le, y);
    if s != [] && !le(x, s[0]) {
      InsertIsStable(x, s[1..], le, y);
      TiedCons(s[0], Insert(x, s[1..], le), le, y);
      assert !(Ties(x, y, le) && Ties(s[0], y, le));
    }
  }

  lemma {:induction false} SortIsStable<T(!new)>(s: seq<T>, le: Order<T>)
    requires Preorder(le)
    ensures IsStableSort(Sort(s, le), s, le)
    ensures multiset(Sort(s, le)) == multiset(s)
  {
    if s != [] {
      SortIsStable(s[1..], le);
      assert s == [s[0]] + s[1..];
      forall x ensures TiedWith(Sort(s, le), le, x) == TiedWith(s, le, x) {
        InsertIsStable(s[0], Sort(s[1..], le), le, x);
      }
      InsertIsSorted(s[0], Sort(s[1..], le), le);
      InsertPermutes(s[0], Sort(s[1..], le), le);
    }
  }

  lemma {:induction false} NothingTiesBelow<T(!new)>(s: seq<T>, le: Order<T>, x: T)
    requires Preorder(le) && forall i | 0 <= i < |s| :: !le(s[i], x)
    ensures TiedWith(s, le, x) == []
  {
    if s != [] {
      NothingTiesBelow(s[1..], le, x);
    }
  }

  lemma HeadTies<T(!new)>(s: seq<T>, le: Order<T>, x: T)
    requires Preorder(le) && s != [] && Ties(s[0], x, le)
    ensures TiedWith(s, le, x) != [] && TiedWith(s, le, x)[0] == s[0]
  {}

  lemma FirstIsLeast<T(!new)>(r: seq<T>, q: seq<T>, le: Order<T>)
    requires Preorder(le) && r != [] && q != [] && Sorted(q, le)
    requires TiedWith(q, le, r[0]) == TiedWith(r, le, r[0])
    ensures le(q[0], r[0])
  {
    if !le(q[0], r[0]) {
      forall i | 0 <= i < |q| ensures !le(q[i], r[0]) {
        assert i > 0 ==> le(q[0], q[i]);
      }
      NothingTiesBelow(q, le, r[0]);
      assert le(r[0], r[0]);
      HeadTies(r, le, r[0]);
    }
  }

  lemma HeadsAreEqual<T(!new)>(r: seq<T>, q: seq<T>, le: Order<T>)
    requires Preorder(le) && r != [] && q != [] && Sorted(r, le) && Sorted(q, le)
    requires forall x :: TiedWith(r, le, x) == TiedWith(q, le, x)
    ensures r[0] == q[0]
  {
    FirstIsLeast(r, q, le);
    FirstIsLeast(q, r, le);
    assert le(r[0], r[0]);
    HeadTies(r, le, r[0]);
    HeadTies(q, le, r[0]);
  }

  lemma TailsAgree<T(!new)>(r: seq<T>, q: seq<T>, le: Order<T>, x: T)
    requires r != [] && q != [] && r[0] == q[0] && TiedWith(r, le, x) == TiedWith(q, le, x)
    ensures TiedWith(r[1..], le, x) == TiedWith(q[1..], le, x)
  {
    var head := if Ties(r[0], x, le) then [r[0]] else [];
    assert TiedWith(r, le, x)[|head|..] == TiedWith(r[1..], le, x);
    assert TiedWith(q, le, x)[|head|..] == TiedWith(q[1..], le, x);
  }

  lemma NothingTiedIsEmpty<T(!new)>(s: seq<T>, le: Order<T>)
    requires Preorder(le) && forall x :: TiedWith(s, le, x) == []
    ensures s == []
  {
    if s != [] {
      assert le(s[0], s[0]);
      HeadTies(s, le, s[0]);
    }
  }

  /** There is only one stable sort, so any implementation returns this one. */
  lemma {:induction false} StableSortIsUnique<T(!new)>(r: seq<T>, q: seq<T>, le: Order<T>)
    requires Preorder(le) && Sorted(r, le) && Sorted(q, le)
    requires forall x :: TiedWith(r, le, x) == TiedWith(q, le, x)
    ensures r == q
  {
    if r == [] || q == [] {
      NothingTiedIsEmpty(if r == [] then q else r, le);
    } else {
      HeadsAreEqual(r, q, le);
      forall x ensures TiedWith(r[1..], le, x) == TiedWith(q[1..], le, x) {
        TailsAgree(r, q, le, x);
      }
      StableSortIsUnique(r[1..], q[1..], le);
      assert r == [r[0]] + r[1..] && q == [q[0]] + q[1..];
    }
  }

  /** A list that is already in order is left alone. */
  lemma SortedIsFixed<T(!new)>(s: seq<T>, le: Order<T>)
    requires Preorder(le) && Sorted(s, le)
    ensures Sort(s, le) == s
  {
    SortIsStable(s, le);
    StableSortIsUnique(Sort(s, le), s, le);
  }

  // ----- orders -----

  function ByKey<T>(key: T -> int): Order<T> {
    (x, y) => key(x) <= key(y)
  }

  lemma ByKeyIsPreorder<T(!new)>(key: T -> int)
    ensures Preorder(ByKey(key))
  {}

  /** The dictionary order of texts, character by character. */
  predicate TextLe(a: string, b: string) {
    a == [] || (b != [] && (a[0] < b[0] || (a[0] == b[0] && TextLe(a[1..], b[1..]))))
  }

  /** The texts agree before i, where the first has the smaller character. */
  ghost predicate DiffersAt(a: string, b: string, i: nat) {
    i < |a| && i < |b| && a[..i] == b[..i] && a[i] < b[i]
  }

  /** A text comes before another exactly when it is a prefix of it or smaller where they first differ. */
  lemma {:induction false} TextLeIff(a: string, b: string)
    ensures TextLe(a, b) <==> a <= b || exists i: nat :: DiffersAt(a, b, i)
  {
    if a != [] && b != [] {
      TextLeIff(a[1..], b[1..]);
      assert a == [a[0]] + a[1..] && b == [b[0]] + b[1..];
      forall i: nat | DiffersAt(a[1..], b[1..], i) && a[0] == b[0] ensures DiffersAt(a, b, i + 1) {
        assert a[..i + 1] == [a[0]] + a[1..][..i] && b[..i + 1] == [b[0]] + b[1..][..i];
      }
      forall i: nat | DiffersAt(a, b, i) && i > 0 ensures a[0] == b[0] && DiffersAt(a[1..], b[1..], i - 1) {
        assert a[0] == a[..i][0] && b[0] == b[..i][0];
        assert a[1..][..i - 1] == a[..i][1..] && b[1..][..i - 1] == b[..i][1..];
      }
      if a[0] < b[0] {
        assert DiffersAt(a, b, 0);
      }
    }
  }

  lemma {:induction false} TextLeIsTotal(a: string, b: string)
    ensures TextLe(a, b) || TextLe(b, a)
  {
    if a != [] && b != [] && a[0] == b[0] {
      TextLeIsTotal(a[1..], b[1..]);
    }
  }

  lemma {:induction false} TextLeIsTransitive(a: string, b: string, c: string)
    requires TextLe(a, b) && TextLe(b, c)
    ensures TextLe(a, c)
  {
    if a != [] && a[0] == b[0] == c[0] {
      TextLeIsTransitive(a[1..], b[1..], c[1..]);
    }
  }

  /** Texts that tie are equal. */
  lemma {:induction false} TextLeIsAntisymmetric(a: string, b: string)
    requires TextLe(a, b) && TextLe(b, a)
    ensures a == b
  {
    if a != [] {
      TextLeIsAntisymmetric(a[1..], b[1..]);
      assert a == [a[0]] + a[1..] && b == [b[0]] + b[1..];
    }
  }

  function ByText<T>(text: T -> string): Order<T> {
    (x, y) => TextLe(text(x), text(y))
  }

  lemma ByTextIsPreorder<T(!new)>(text: T -> string)
    ensures Preorder(ByText(text))
  {
    var le := ByText(text);
    forall x, y ensures le(x, y) || le(y, x) {
      TextLeIsTotal(text(x), text(y));
    }
    forall x, y, z ensures le(x, y) && le(y, z) ==> le(x, z) {
      if le(x, y) && le(y, z) {
        TextLeIsTransitive(text(x), text(y), text(z));
      }
    }
  }
}
