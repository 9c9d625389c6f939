/**
  A row object (what `fetch_object()` returns, and what a model keeps in
  `$data`): its properties in iteration order. Reading a property the object
  does not have yields null; assigning one keeps the place of an existing
  property and appends a new one.
 */
module Rows {
  import opened Scalars

  type Column = string

  type Row = seq<(Column, Scalar)>

  /** No name or key occurs twice, as in every PHP object or array. */
  ghost predicate Distinct<K, V>(r: seq<(K, V)>) {
    forall i, j | 0 <= i < j < |r| :: r[i].0 != r[j].0
  }

  /** `a` is what remains of `b` after some of its entries are dropped. */
  ghost predicate Subsequence<T>(a: seq<T>, b: seq<T>)
    decreases |b|
  {
    if a == [] then true
    else if b == [] then false
    else (a[|a| - 1] == b[|b| - 1] && Subsequence(a[..|a| - 1], b[..|b| - 1]))
         || Subsequence(a, b[..|b| - 1])
  }

  function Values(r: Row): seq<Scalar> {
    seq(|r|, i requires 0 <= i < |r| => r[i].1)
  }

  /** The position of name c, or -1 when r has none. */
  function IndexOf<K(==), V>(r: seq<(K, V)>, c: K): (k: int)
    ensures -1 <= k < |r|
    ensures 0 <= k ==> r[k].0 == c && forall j | 0 <= j < k :: r[j].0 != c
    ensures k < 0 ==> forall j | 0 <= j < |r| :: r[j].0 != c
  {
    if r == [] then -1
    else if r[0].0 == c then 0
    else
      var k := IndexOf(r[1..], c);
      if k < 0 then -1 else k + 1
  }

  predicate Has(r: Row, c: Column) {
    0 <= IndexOf(r, c)
  }

  /** `$row->$c`: the value of property c, or null when there is none. */
  function Get(r: Row, c: Column): (v: Scalar)
    ensures Has(r, c) ==> (c, v) in r
    ensures !Has(r, c) ==> v == Null
  {
    var k := IndexOf(r, c);
    if k < 0 then Null else r[k].1
  }

  /** In a row without repeated names, every entry is what reading its name gives. */
  lemma GetAt(r: Row, j: int)
    requires Distinct(r) && 0 <= j < |r|
    ensures Has(r, r[j].0) && IndexOf(r, r[j].0) == j && Get(r, r[j].0) == r[j].1
  {
  }

  /** Two rows with the same names in the same places find every name at the same place. */
  lemma IndexOfSameNames<K, V, W>(r: seq<(K, V)>, r': seq<(K, W)>, c: K)
    requires |r| == |r'| && forall j | 0 <= j < |r| :: r[j].0 == r'[j].0
    ensures IndexOf(r, c) == IndexOf(r', c)
  {
  }

  /**
    Assignment under a name, as PHP does it for object properties and array
    keys: an existing entry is overwritten in its place, a new one appended.
   */
  function Put<K(==), V>(r: seq<(K, V)>, c: K, v: V): seq<(K, V)> {
    var k := IndexOf(r, c);
    if k < 0 then r + [(c, v)] else r[k := (c, v)]
  }

  /** Where every name is found after an assignment: the assigned one in place or at the end, the others where they were. */
  lemma PutIndexOf<K, V>(r: seq<(K, V)>, c: K, v: V, k: K)
    ensures var i := IndexOf(r, c);
      IndexOf(Put(r, c, v), k) == if k == c then (if i < 0 then |r| else i) else IndexOf(r, k)
  {
    if IndexOf(r, c) < 0 {
      AppendIndexOf(r, c, v, k);
    } else {
      IndexOfSameNames(r, Put(r, c, v), k);
    }
  }

  /** Appending a new name finds it at the end and every other name where it was. */
  lemma AppendIndexOf<K, V>(r: seq<(K, V)>, c: K, v: V, k: K)
    requires IndexOf(r, c) < 0
    ensures IndexOf(r + [(c, v)], k) == if k == c then |r| else IndexOf(r, k)
  {
    var r' := r + [(c, v)];
    assert forall j | 0 <= j < |r| :: r'[j] == r[j];
    if k == c {
      IndexOfUnique(r', k, |r|);
    } else {
      IndexOfUnique(r', k, IndexOf(r, k));
    }
  }

  /** `IndexOf` is the one position its contract describes. */
  lemma {:induction false} IndexOfUnique<K, V>(r: seq<(K, V)>, c: K, k: int)
    requires -1 <= k < |r|
    requires 0 <= k ==> r[k].0 == c && forall j | 0 <= j < k :: r[j].0 != c
    requires k < 0 ==> forall j | 0 <= j < |r| :: r[j].0 != c
    ensures IndexOf(r, c) == k
  {
    var i := IndexOf(r, c);
    if 0 <= i && 0 <= k {
      assert !(i < k) && !(k < i);
    }
  }

  /** The entry of the assigned name holds the assigned value. */
  lemma PutSelf<K, V>(r: seq<(K, V)>, c: K, v: V)
    ensures 0 <= IndexOf(Put(r, c, v), c) && Put(r, c, v)[IndexOf(Put(r, c, v), c)] == (c, v)
  {
    PutIndexOf(r, c, v, c);
  }

  /** The entry of any other name is untouched. */
  lemma PutOther<K, V>(r: seq<(K, V)>, c: K, v: V, k: K)
    requires k != c && 0 <= IndexOf(r, k)
    ensures IndexOf(Put(r, c, v), k) == IndexOf(r, k)
    ensures Put(r, c, v)[IndexOf(r, k)] == r[IndexOf(r, k)]
  {
    PutIndexOf(r, c, v, k);
  }

  /** An assignment keeps every name in its place, and adds the assigned one at the end when it was missing. */
  lemma PutKeys<K, V>(r: seq<(K, V)>, c: K, v: V)
    ensures IndexOf(r, c) < 0 ==> Put(r, c, v) == r + [(c, v)]
    ensures 0 <= IndexOf(r, c) ==> |Put(r, c, v)| == |r|
    ensures forall p | 0 <= p < |r| :: Put(r, c, v)[p].0 == r[p].0
  {
  }

  /**
    The same assignment to two arrays with the same keys in the same places
    keeps them aligned: each entry is either the assigned one on both sides
    or the old one on both sides.
   */
  lemma PutAligned<K, V, W>(r: seq<(K, V)>, r': seq<(K, W)>, c: K, v: V, w: W)
    requires |r| == |r'| && forall p | 0 <= p < |r| :: r[p].0 == r'[p].0
    ensures |Put(r, c, v)| == |Put(r', c, w)|
    ensures forall p | 0 <= p < |Put(r, c, v)| ::
      || (Put(r, c, v)[p] == (c, v) && Put(r', c, w)[p] == (c, w))
      || (p < |r| && Put(r, c, v)[p] == r[p] && Put(r', c, w)[p] == r'[p])
  {
    IndexOfSameNames(r, r', c);
  }

  /** An assignment keeps names distinct. */
  lemma PutDistinct<K, V>(r: seq<(K, V)>, c: K, v: V)
    requires Distinct(r)
    ensures Distinct(Put(r, c, v))
  {
    if IndexOf(r, c) < 0 {
      assert Put(r, c, v)[|r|].0 == c;
    }
  }

  /** `$row->$c = $v`. */
  function SetColumn(r: Row, c: Column, v: Scalar): (r': Row)
    ensures Has(r', c) && Get(r', c) == v
    ensures forall c' | c' != c :: Get(r', c') == Get(r, c')
    ensures Has(r, c) ==> r' == r[IndexOf(r, c) := (c, v)]
    ensures !Has(r, c) ==> r' == r + [(c, v)]
    ensures Distinct(r) ==> Distinct(r')
  {
    var k := IndexOf(r, c);
    if k < 0 then
      AppendNew(r, c, v);
      Put(r, c, v)
    else
      ReplaceAt(r, k, c, v);
      Put(r, c, v)
  }

  /** Appending a property the row lacks. */
  lemma AppendNew(r: Row, c: Column, v: Scalar)
    requires !Has(r, c)
    ensures var r' := r + [(c, v)];
      && Has(r', c) && Get(r', c) == v
      && (forall c' | c' != c :: Get(r', c') == Get(r, c'))
      && (Distinct(r) ==> Distinct(r'))
  {
    var r' := r + [(c, v)];
    assert r'[|r|].0 == c;
    forall c' | c' != c ensures IndexOf(r', c') == IndexOf(r, c') {
      var k' := IndexOf(r, c');
      if 0 <= k' {
        assert r'[k'].0 == c';
      }
    }
  }

  /** Overwriting a property the row has, in its place. */
  lemma ReplaceAt(r: Row, k: int, c: Column, v: Scalar)
    requires 0 <= k && k == IndexOf(r, c)
    ensures var r' := r[k := (c, v)];
      && Has(r', c) && Get(r', c) == v
      && (forall c' | c' != c :: Get(r', c') == Get(r, c'))
      && (Distinct(r) ==> Distinct(r'))
  {
    var r' := r[k := (c, v)];
    forall c' ensures IndexOf(r', c') == IndexOf(r, c') {
      IndexOfSameNames(r, r', c');
    }
  }

  /** The loop `foreach ($ps as $name => $value) $row->$name = $value;`. */
  function SetAll(r: Row, ps: Row): (r': Row)
    ensures Distinct(r) ==> Distinct(r')
    decreases |ps|
  {
    if ps == [] then r
    else SetColumn(SetAll(r, ps[..|ps| - 1]), ps[|ps| - 1].0, ps[|ps| - 1].1)
  }

  /**
    After assigning the entries of ps (an array, so no name twice), each of
    its names reads as ps gives it and every other name as before.
   */
  lemma {:induction false} SetAllGet(r: Row, ps: Row, c: Column)
    requires Distinct(ps)
    ensures Has(ps, c) ==> Get(SetAll(r, ps), c) == Get(ps, c)
    ensures !Has(ps, c) ==> Get(SetAll(r, ps), c) == Get(r, c)
    decreases |ps|
  {
    if ps != [] {
      var init, last := ps[..|ps| - 1], ps[|ps| - 1];
      assert ps == init + [last];
      assert Distinct(init);
      SetAllGet(r, init, c);
      GetAppend(init, last, c);
    }
  }

  /** Reading a row with one more entry, under a name it did not have before. */
  lemma GetAppend(r: Row, e: (Column, Scalar), c: Column)
    requires Distinct(r + [e])
    ensures Has(r + [e], c) <==> Has(r, c) || e.0 == c
    ensures e.0 == c ==> Get(r + [e], c) == e.1
    ensures e.0 != c ==> Get(r + [e], c) == Get(r, c)
  {
    var r' := r + [e];
    var k := IndexOf(r, c);
    if 0 <= k {
      assert r'[k].0 == c;
    }
    if e.0 == c {
      GetAt(r', |r|);
    }
  }
}
