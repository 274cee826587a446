/** `AddressBook`: the contacts as a dictionary from name to `Record` that
    remembers insertion order. It is modelled as the sequence of records in
    dictionary order; a record's key is its name. `AsMap` forgets the order
    and is the reference the operations are stated against. */
module AddressBook {
  import opened Results
  import opened Records
  import opened Lists

  datatype Book = Book(records: seq<Record>)

  const Empty := Book([])

  /** The keys, in dictionary order. */
  function Names(rs: seq<Record>): (ns: seq<string>)
    ensures |ns| == |rs|
    ensures forall k :: 0 <= k < |rs| ==> ns[k] == rs[k].name
  {
    seq(|rs|, k requires 0 <= k < |rs| => rs[k].name)
  }

  predicate DistinctNames(rs: seq<Record>) {
    forall i, j :: 0 <= i < j < |rs| ==> rs[i].name != rs[j].name
  }

  /** A dictionary has each key once; every stored birthday is a real date. */
  predicate Valid(b: Book) {
    DistinctNames(b.records) && forall k :: 0 <= k < |b.records| ==> WellFormed(b.records[k])
  }

  /** The book as an unordered map from name to record. */
  function AsMap(rs: seq<Record>): map<string, Record>
    decreases |rs|
  {
    if |rs| == 0 then map[]
    else AsMap(rs[..|rs| - 1])[rs[|rs| - 1].name := rs[|rs| - 1]]
  }

  lemma {:induction false} AsMapKeys(rs: seq<Record>)
    ensures AsMap(rs).Keys == set k | 0 <= k < |rs| :: rs[k].name
    decreases |rs|
  {
    if |rs| > 0 {
      var init := rs[..|rs| - 1];
      AsMapKeys(init);
      assert forall k :: 0 <= k < |init| ==> init[k] == rs[k];
    }
  }

  lemma {:induction false} AsMapAt(rs: seq<Record>, i: int)
    requires DistinctNames(rs) && 0 <= i < |rs|
    ensures rs[i].name in AsMap(rs) && AsMap(rs)[rs[i].name] == rs[i]
    decreases |rs|
  {
    AsMapKeys(rs);
    if i < |rs| - 1 {
      var init := rs[..|rs| - 1];
      AsMapAt(init, i);
    }
  }

  /** A position holding a given key. */
  lemma {:induction false} KeyIndex(rs: seq<Record>, x: string) returns (k: int)
    requires x in AsMap(rs)
    ensures 0 <= k < |rs| && rs[k].name == x
    decreases |rs|
  {
    if rs[|rs| - 1].name == x {
      k := |rs| - 1;
    } else {
      k := KeyIndex(rs[..|rs| - 1], x);
    }
  }

  /** In a duplicate-free book the last name is not among the earlier ones. */
  lemma LastNameFresh(rs: seq<Record>)
    requires DistinctNames(rs) && |rs| > 0
    ensures rs[|rs| - 1].name !in AsMap(rs[..|rs| - 1])
  {
    var init := rs[..|rs| - 1];
    if rs[|rs| - 1].name in AsMap(init) {
      var k := KeyIndex(init, rs[|rs| - 1].name);
    }
  }

  /** Two duplicate-free books with the same records at the same names are
      the same map. */
  lemma AsMapOfPositions(rs: seq<Record>)
    requires DistinctNames(rs)
    ensures forall n :: n in AsMap(rs) <==> n in Names(rs)
    ensures forall k :: 0 <= k < |rs| ==> AsMap(rs)[rs[k].name] == rs[k]
  {
    AsMapKeys(rs);
    forall k | 0 <= k < |rs| ensures AsMap(rs)[rs[k].name] == rs[k] {
      AsMapAt(rs, k);
    }
  }

  /** Position of the record called `n`, or -1. */
  function IndexOf(rs: seq<Record>, n: string): (i: int)
    ensures -1 <= i < |rs|
    ensures 0 <= i ==> rs[i].name == n
    ensures i < 0 ==> n !in Names(rs)
    decreases |rs|
  {
    if |rs| == 0 then -1
    else if rs[|rs| - 1].name == n then |rs| - 1
    else
      var i := IndexOf(rs[..|rs| - 1], n);
      assert Names(rs) == Names(rs[..|rs| - 1]) + [rs[|rs| - 1].name];
      i
  }

  /** `find`: the record stored under `n`, or nothing. */
  function Find(b: Book, n: string): (r: Option<Record>)
    requires Valid(b)
    ensures r.Some? <==> n in AsMap(b.records)
    ensures r.Some? ==> r.value == AsMap(b.records)[n] && r.value.name == n && WellFormed(r.value)
  {
    AsMapOfPositions(b.records);
    var i := IndexOf(b.records, n);
    if i < 0 then None else Some(b.records[i])
  }

  /** Overwriting the entry at position `i` with a record of the same name
      rebinds only that name. */
  lemma ReplaceAtMap(rs: seq<Record>, i: int, r: Record)
    requires DistinctNames(rs) && 0 <= i < |rs| && rs[i].name == r.name
    ensures DistinctNames(rs[i := r])
    ensures AsMap(rs[i := r]) == AsMap(rs)[r.name := r]
  {
    var rs' := rs[i := r];
    assert forall k :: 0 <= k < |rs| ==> rs'[k].name == rs[k].name;
    assert DistinctNames(rs');
    var m, m' := AsMap(rs)[r.name := r], AsMap(rs');
    forall x | x in m' ensures x in m && m'[x] == m[x] {
      var k := KeyIndex(rs', x);
      AsMapAt(rs', k);
      if k != i {
        AsMapAt(rs, k);
      }
    }
    forall x | x in m ensures x in m' {
      if x == r.name {
        AsMapAt(rs', i);
      } else {
        var k := KeyIndex(rs, x);
        AsMapAt(rs', k);
      }
    }
    assert m'.Keys == m.Keys;
  }

  /** `add_record`: stores the record under its name. An existing entry of
      that name is replaced where it stands; otherwise the name goes last.
      No other entry changes. */
  function AddRecord(b: Book, r: Record): (b': Book)
    requires Valid(b) && WellFormed(r)
    ensures Valid(b')
    ensures AsMap(b'.records) == AsMap(b.records)[r.name := r]
    ensures r.name in Names(b.records) ==> Names(b'.records) == Names(b.records)
    ensures r.name !in Names(b.records) ==> Names(b'.records) == Names(b.records) + [r.name]
  {
    var rs := b.records;
    var i := IndexOf(rs, r.name);
    if i < 0 then
      var rs' := rs + [r];
      assert rs'[..|rs'| - 1] == rs;
      assert Names(rs') == Names(rs) + [r.name];
      Book(rs')
    else
      var rs' := rs[i := r];
      assert Names(rs') == Names(rs);
      ReplaceAtMap(rs, i, r);
      Book(rs')
  }

  /** The records left after dropping position `i`, in order. */
  lemma RemoveAtShift(rs: seq<Record>, i: int, rs': seq<Record>)
    requires 0 <= i < |rs| && rs' == rs[..i] + rs[i + 1..]
    ensures |rs'| == |rs| - 1
    ensures forall k :: 0 <= k < |rs'| ==> rs'[k] == rs[if k < i then k else k + 1]
  {
  }

  lemma RemoveAtDistinct(rs: seq<Record>, i: int, rs': seq<Record>)
    requires DistinctNames(rs) && 0 <= i < |rs| && rs' == rs[..i] + rs[i + 1..]
    ensures DistinctNames(rs')
  {
    RemoveAtShift(rs, i, rs');
  }

  lemma RemoveAtNames(rs: seq<Record>, i: int, rs': seq<Record>)
    requires DistinctNames(rs) && 0 <= i < |rs| && rs' == rs[..i] + rs[i + 1..]
    ensures Names(rs') == RemoveAll(Names(rs), rs[i].name)
  {
    RemoveAtShift(rs, i, rs');
    var n := rs[i].name;
    var ns := Names(rs);
    var a, c := ns[..i], ns[i + 1..];
    assert Names(rs') == a + c;
    assert ns == a + [n] + c;
    assert n !in a && n !in c;
    RemoveAllSingle(a, n, c);
  }

  lemma RemoveAtMap(rs: seq<Record>, i: int, rs': seq<Record>)
    requires DistinctNames(rs) && 0 <= i < |rs| && rs' == rs[..i] + rs[i + 1..]
    ensures AsMap(rs') == AsMap(rs) - {rs[i].name}
  {
    RemoveAtKept(rs, i, rs');
    RemoveAtCovers(rs, i, rs');
    MapWithout(AsMap(rs), AsMap(rs'), rs[i].name);
  }

  lemma RemoveAtKept(rs: seq<Record>, i: int, rs': seq<Record>)
    requires DistinctNames(rs) && 0 <= i < |rs| && rs' == rs[..i] + rs[i + 1..]
    ensures forall x :: x in AsMap(rs') ==> x in AsMap(rs) && x != rs[i].name && AsMap(rs')[x] == AsMap(rs)[x]
  {
    RemoveAtShift(rs, i, rs');
    RemoveAtDistinct(rs, i, rs');
    forall x | x in AsMap(rs') ensures x in AsMap(rs) && x != rs[i].name && AsMap(rs')[x] == AsMap(rs)[x] {
      var k := KeyIndex(rs', x);
      var j := if k < i then k else k + 1;
      assert rs'[k] == rs[j];
      AsMapAt(rs', k);
      AsMapAt(rs, j);
    }
  }

  lemma RemoveAtCovers(rs: seq<Record>, i: int, rs': seq<Record>)
    requires DistinctNames(rs) && 0 <= i < |rs| && rs' == rs[..i] + rs[i + 1..]
    ensures forall x :: x in AsMap(rs) && x != rs[i].name ==> x in AsMap(rs')
  {
    RemoveAtShift(rs, i, rs');
    RemoveAtDistinct(rs, i, rs');
    forall x | x in AsMap(rs) && x != rs[i].name ensures x in AsMap(rs') {
      var k := KeyIndex(rs, x);
      var j := if k < i then k else k - 1;
      assert rs'[j] == rs[k];
      AsMapAt(rs', j);
    }
  }

  lemma MapWithout<K, V>(m: map<K, V>, m': map<K, V>, n: K)
    requires forall x :: x in m' ==> x in m && x != n && m'[x] == m[x]
    requires forall x :: x in m && x != n ==> x in m'
    ensures m' == m - {n}
  {
  }

  /** `delete`: removes the entry of `n` and keeps the others in order; an
      absent name leaves the book as it was and prints "not found". */
  function Delete(b: Book, n: string): (res: (Book, Option<Notice>))
    requires Valid(b)
    ensures Valid(res.0)
    ensures n !in AsMap(b.records) ==> res.0 == b && res.1 == Some(ContactMissing(n))
    ensures n in AsMap(b.records) ==>
              && res.1 == None
              && AsMap(res.0.records) == AsMap(b.records) - {n}
              && Names(res.0.records) == RemoveAll(Names(b.records), n)
  {
    AsMapOfPositions(b.records);
    var rs := b.records;
    var i := IndexOf(rs, n);
    if i < 0 then (b, Some(ContactMissing(n)))
    else
      var rs' := rs[..i] + rs[i + 1..];
      RemoveAtShift(rs, i, rs');
      RemoveAtDistinct(rs, i, rs');
      RemoveAtNames(rs, i, rs');
      RemoveAtMap(rs, i, rs');
      (Book(rs'), None)
  }
}
