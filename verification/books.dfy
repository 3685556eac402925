/** `AddressBook` (main.py): records keyed by name, in insertion order, with
    lookup, deletion, paging and a printable listing. */
module Books {
  import opened Base
  import opened PyStr
  import opened Records

  /** `sys.maxsize` on a 64-bit build: the largest stop `islice` accepts. */
  const MaxSize: int := 0x7FFF_FFFF_FFFF_FFFF

  function Min(a: int, b: int): int { if a <= b then a else b }

  /** `s[i..]` cut into consecutive pages of `k` elements; the last may be shorter. */
  function ChunksFrom<T>(s: seq<T>, i: nat, k: nat): seq<seq<T>>
    requires k > 0
    decreases |s| - i
  {
    if i >= |s| then [] else [s[i..Min(i + k, |s|)]] + ChunksFrom(s, i + k, k)
  }

  /** `s` cut into consecutive pages of `k` elements. */
  function Chunks<T>(s: seq<T>, k: nat): seq<seq<T>>
    requires k > 0
  {
    ChunksFrom(s, 0, k)
  }

  /** The pages concatenated back together. */
  function Flatten<T>(pages: seq<seq<T>>): seq<T> {
    if pages == [] then [] else pages[0] + Flatten(pages[1..])
  }

  /** Paging loses nothing and repeats nothing: the pages put back together are `s[i..]`. */
  lemma {:induction false} ChunksFromFlatten<T>(s: seq<T>, i: nat, k: nat)
    requires k > 0 && i <= |s|
    ensures Flatten(ChunksFrom(s, i, k)) == s[i..]
    decreases |s| - i
  {
    if i < |s| {
      var m := Min(i + k, |s|);
      var c := ChunksFrom(s, i, k);
      if i + k <= |s| {
        ChunksFromFlatten(s, i + k, k);
      } else {
        assert ChunksFrom(s, i + k, k) == [];
      }
      assert c[1..] == ChunksFrom(s, i + k, k);
      assert s[i..] == s[i..m] + s[m..];
    }
  }

  lemma ChunksFlatten<T>(s: seq<T>, k: nat)
    requires k > 0
    ensures Flatten(Chunks(s, k)) == s
  {
    ChunksFromFlatten(s, 0, k);
  }

  /** There are `ceil((|s| - i) / k)` pages: the fewest pages of `k` that hold `s[i..]`. */
  lemma {:induction false} ChunksFromCount<T>(s: seq<T>, i: nat, k: nat)
    requires k > 0 && i <= |s|
    ensures |s| - i <= |ChunksFrom(s, i, k)| * k < |s| - i + k
    decreases |s| - i
  {
    if i < |s| {
      var c := |ChunksFrom(s, i + k, k)|;
      if i + k <= |s| {
        ChunksFromCount(s, i + k, k);
      } else {
        assert c == 0;
      }
      assert (c + 1) * k == c * k + k;
    }
  }

  lemma ChunksCount<T>(s: seq<T>, k: nat)
    requires k > 0
    ensures |s| <= |Chunks(s, k)| * k < |s| + k
  {
    ChunksFromCount(s, 0, k);
  }

  /** Every page but the last is full and none is empty. */
  lemma {:induction false} ChunksFromSizes<T>(s: seq<T>, i: nat, k: nat)
    requires k > 0
    ensures forall j :: 0 <= j < |ChunksFrom(s, i, k)| ==> 0 < |ChunksFrom(s, i, k)[j]| <= k
    ensures forall j :: 0 <= j < |ChunksFrom(s, i, k)| - 1 ==> |ChunksFrom(s, i, k)[j]| == k
    decreases |s| - i
  {
    if i < |s| {
      ChunksFromSizes(s, i + k, k);
      var c := ChunksFrom(s, i, k);
      var r := ChunksFrom(s, i + k, k);
      assert c == [s[i..Min(i + k, |s|)]] + r;
      forall j | 0 <= j < |c| ensures 0 < |c[j]| <= k {
        if j > 0 { assert c[j] == r[j - 1]; }
      }
      forall j | 0 <= j < |c| - 1 ensures |c[j]| == k {
        if j > 0 { assert c[j] == r[j - 1]; } else { assert i + k < |s|; }
      }
    }
  }

  lemma ChunksSizes<T>(s: seq<T>, k: nat)
    requires k > 0
    ensures forall j :: 0 <= j < |Chunks(s, k)| ==> 0 < |Chunks(s, k)[j]| <= k
    ensures forall j :: 0 <= j < |Chunks(s, k)| - 1 ==> |Chunks(s, k)[j]| == k
  {
    ChunksFromSizes(s, 0, k);
    assert Chunks(s, k) == ChunksFrom(s, 0, k);
  }

  /** What `list(book.iterator(n))` produces for records `vs`, or the error the
      first step of the generator raises. An empty book yields no page at all;
      `n` of `None` yields everything as one page; `n == 0` yields one empty
      page (`islice(it, 0)` takes nothing and the loop then stops); a positive
      `n` yields pages of `n`; a negative `n` or one beyond `sys.maxsize` makes
      `islice` raise `ValueError`. */
  function Pages<T>(vs: seq<T>, n: Option<int>): Result<seq<seq<T>>> {
    if vs == [] then Ok([])
    else match n
      case None => Ok([vs])
      case Some(k) =>
        if k < 0 || k > MaxSize then Err(ValueError)
        else if k == 0 then Ok([[]])
        else Ok(Chunks(vs, k))
  }

  /** Whatever `n`, successful paging of a book never drops or repeats a record,
      except that `n == 0` yields one empty page. */
  lemma PagesFlatten<T>(vs: seq<T>, n: Option<int>)
    requires Pages(vs, n).Ok?
    ensures n == Some(0) && vs != [] ==> Pages(vs, n).value == [[]]
    ensures n != Some(0) || vs == [] ==> Flatten(Pages(vs, n).value) == vs
  {
    if vs != [] && n.Some? && n.value > 0 {
      ChunksFlatten(vs, n.value);
    } else if vs != [] && n.None? {
      assert Flatten([vs]) == vs + Flatten<T>([]);
    }
  }

  /** `islice(it, n)` on an iterator standing at `pos` in `vs`: the next `n`
      elements (all that remain when `n` is `None` or too large), and where
      the iterator stands afterwards. */
  method Islice<T>(vs: seq<T>, pos: nat, n: Option<nat>) returns (page: seq<T>, next: nat)
    requires pos <= |vs|
    ensures next == if n.Some? then Min(pos + n.value, |vs|) else |vs|
    ensures page == vs[pos..next]
  {
    page := [];
    next := pos;
    while (n.None? || next - pos < n.value) && next < |vs|
      invariant pos <= next <= |vs|
      invariant page == vs[pos..next]
      invariant n.Some? ==> next - pos <= n.value
    {
      page := page + [vs[next]];
      next := next + 1;
    }
  }

  /** The text lines `str(r)` of the records, in order. */
  function Lines(rs: seq<Record>): (ls: seq<string>)
    reads set r | r in rs
    ensures |ls| == |rs|
    ensures forall i :: 0 <= i < |rs| ==> ls[i] == rs[i].ToString()
  {
    if rs == [] then [] else [rs[0].ToString()] + Lines(rs[1..])
  }

  /** The values of `data` in the order of `keys`. */
  function ValuesOf(keys: seq<string>, data: map<string, Record>): (vs: seq<Record>)
    requires forall k :: k in keys ==> k in data
    ensures |vs| == |keys|
    ensures forall i :: 0 <= i < |keys| ==> vs[i] == data[keys[i]]
  {
    if keys == [] then [] else [data[keys[0]]] + ValuesOf(keys[1..], data)
  }

  /** `keys` without `name`. */
  function Without(keys: seq<string>, name: string): (r: seq<string>)
    ensures forall k :: k in r <==> k in keys && k != name
    ensures |r| <= |keys|
  {
    if keys == [] then []
    else if keys[0] == name then Without(keys[1..], name)
    else [keys[0]] + Without(keys[1..], name)
  }

  /** Removing a key from a list without repetitions keeps it without
      repetitions and shortens it by one exactly when the key was there
      (`WithoutOrder` says where the other keys end up). */
  lemma {:induction false} WithoutDistinct(keys: seq<string>, name: string)
    requires forall i, j :: 0 <= i < j < |keys| ==> keys[i] != keys[j]
    ensures var r := Without(keys, name);
      (forall i, j :: 0 <= i < j < |r| ==> r[i] != r[j])
      && |r| == (if name in keys then |keys| - 1 else |keys|)
      && (name !in keys ==> r == keys)
  {
    if keys != [] {
      WithoutDistinct(keys[1..], name);
      var r := Without(keys, name);
      if keys[0] != name {
        var t := Without(keys[1..], name);
        assert r == [keys[0]] + t;
        forall i, j | 0 <= i < j < |r| ensures r[i] != r[j] {
          if i == 0 {
            assert r[j] in t;
            assert keys[0] !in keys[1..];
          } else {
            assert r[i] == t[i - 1] && r[j] == t[j - 1];
          }
        }
        assert name in keys <==> name in keys[1..];
      } else {
        assert name !in keys[1..];
      }
    }
  }

  /** In a list without repetitions, removing the key at index `i` cuts out
      exactly that occurrence; the keys before and after keep their order. */
  lemma {:induction false} WithoutOrder(keys: seq<string>, i: nat)
    requires forall a, b :: 0 <= a < b < |keys| ==> keys[a] != keys[b]
    requires i < |keys|
    ensures Without(keys, keys[i]) == keys[..i] + keys[i + 1..]
  {
    var name, tail := keys[i], keys[1..];
    WithoutDistinct(tail, name);
    if i == 0 {
      assert name !in tail;
    } else {
      assert keys[0] != name;
      assert tail[i - 1] == name;
      WithoutOrder(tail, i - 1);
      assert [keys[0]] + tail[..i - 1] == keys[..i];
      assert tail[i..] == keys[i + 1..];
    }
  }

  class AddressBook {
    /** The names in insertion order, as the dict keeps them. */
    var keys: seq<string>
    var data: map<string, Record>

    /** Each record is filed under its own name, the order lists every name
        once, and every record is valid. Filing by name also means no record
        object is filed twice. */
    ghost predicate Valid()
      reads this, data.Values
    {
      && Indexed()
      && (forall i, j :: 0 <= i < j < |keys| ==> keys[i] != keys[j])
      && (forall k :: k in data ==> k in keys)
      && (forall k :: k in data ==> data[k].name == k)
      && (forall k {:trigger data[k].Valid()} :: k in data ==> data[k].Valid())
    }

    /** Every name in the order has a record: all that listing the records needs. */
    ghost predicate Indexed()
      reads this
    {
      forall k :: k in keys ==> k in data
    }

    /** `AddressBook()`: empty. */
    constructor ()
      ensures Valid() && keys == [] && data == map[]
    {
      keys := [];
      data := map[];
    }

    /** `book.data.values()`, in insertion order. */
    function Values(): (vs: seq<Record>)
      reads this
      requires Indexed()
      ensures |vs| == |keys|
    {
      ValuesOf(keys, data)
    }

    /** `add_record`: files the record under its name, replacing any record
        already there; a new name goes to the end of the order, a replaced one
        keeps its place. */
    method AddRecord(r: Record)
      requires Valid() && r.Valid()
      modifies this
      ensures Valid()
      ensures data == old(data)[r.name := r]
      ensures keys == if r.name in old(data) then old(keys) else old(keys) + [r.name]
      ensures Find(r.name) == Some(r)
    {
      if r.name !in data {
        keys := keys + [r.name];
      }
      data := data[r.name := r];
    }

    /** `find` (and `data.get`): the record filed under `name`, if any. */
    function Find(name: string): (res: Option<Record>)
      reads this, data.Values
      requires Valid()
      ensures res.Some? <==> name in keys
      ensures res.Some? ==> res.value.name == name && res.value.Valid() && res.value in data.Values
    {
      if name in data then Some(data[name]) else None
    }

    /** `delete`: drops the record filed under `name`; an absent name changes nothing. */
    method Delete(name: string)
      requires Valid()
      modifies this
      ensures Valid()
      ensures data == old(data) - {name}
      ensures keys == Without(old(keys), name)
      ensures name !in old(data) ==> keys == old(keys)
      ensures Find(name) == None
    {
      WithoutDistinct(keys, name);
      if name in data {
        data := data - {name};
        keys := Without(keys, name);
      }
    }

    /** `list(iterator(n))`: the pages the generator yields. */
    method Iterator(n: Option<int>) returns (res: Result<seq<seq<Record>>>)
      requires Indexed()
      ensures res == Pages(Values(), n)
    {
      var values := Values();
      var counter := 0;
      var pos := 0;
      var pages: seq<seq<Record>> := [];
      ghost var k: nat := if n.Some? && n.value > 0 then n.value else 1;
      while counter < |values|
        invariant pos == Min(counter, |values|)
        invariant pages + ChunksFrom(values, pos, k) == Chunks(values, k)
        invariant n.None? || n.value <= 0 || n.value > MaxSize ==> counter == 0 && pages == []
        decreases |values| - counter
      {
        if n.Some? && (n.value < 0 || n.value > MaxSize) {
          return Err(ValueError);
        }
        var page, next := Islice(values, pos, if n.None? then None else Some(n.value as nat));
        if n.Some? && n.value != 0 {
          pages := pages + [page];
          pos := next;
          counter := counter + n.value;
        } else {
          // The generator yields this one page, then `break`s.
          assert n.None? ==> page == values;
          return Ok([page]);
        }
      }
      assert ChunksFrom(values, pos, k) == [];
      assert pages + [] == pages;
      return Ok(pages);
    }

    /** `str(book)`: one line per record, in insertion order. */
    function ToString(): string
      reads this, data.Values
      requires Indexed()
    {
      Join(Lines(Values()), "\n")
    }
  }

  /** Splitting `str(book)` at line breaks gives back `str(r)` of each record
      in order, when the book is not empty and no record holds a line break in
      its name or phones. */
  lemma BookLines(book: AddressBook)
    requires book.Valid() && book.keys != []
    requires forall k :: k in book.data ==> '\n' !in k
    requires forall k, i :: k in book.data && 0 <= i < |book.data[k].phones| ==> '\n' !in book.data[k].phones[i].value
    ensures SplitOn(book.ToString(), '\n') == Lines(book.Values())
  {
    var vs := book.Values();
    var ls := Lines(vs);
    forall i | 0 <= i < |ls| ensures '\n' !in ls[i] {
      var k := book.keys[i];
      assert vs[i] == book.data[k];
      RecordOnOneLine(vs[i]);
    }
    SplitJoin(ls, '\n');
  }
}
