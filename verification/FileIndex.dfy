/** The in-memory index of the disk cache: the eviction order, the sizes by path and their total. Every
    section the cache runs under its lock is a function of the index. */
module FileIndex {
  import opened Bytes

  /** Least recently used first. */
  datatype Index = Index(order: seq<string>, sizes: map<string, nat>, total: int)

  datatype Section =
    | List(path: string, size: nat)   // the end of a put
    | Touch(path: string)             // the end of a hit
    | Drop(path: string)              // the start of a remove
    | Evict(maxBytes: int)            // one round of the trim loop

  predicate Distinct(order: seq<string>) {
    forall i, j | 0 <= i < j < |order| :: order[i] != order[j]
  }

  function Sum(order: seq<string>, sizes: map<string, nat>): nat {
    if order == [] then 0
    else Sum(order[..|order| - 1], sizes) +
         var path := order[|order| - 1]; if path in sizes then sizes[path] else 0
  }

  /** The order lists exactly the indexed paths, once each, and the total is the sum of their sizes. */
  ghost predicate Exact(ix: Index) {
    && Distinct(ix.order)
    && (forall path :: path in ix.order <==> path in ix.sizes)
    && ix.total == Sum(ix.order, ix.sizes)
  }

  function Omit(order: seq<string>, path: string): seq<string> {
    if order == [] then []
    else
      var n := |order| - 1;
      if order[n] == path then Omit(order[..n], path) else Omit(order[..n], path) + [order[n]]
  }

  /** What the trim loop evicts next. */
  predicate Overfull(ix: Index, maxBytes: int) {
    maxBytes > 0 && ix.total > maxBytes && ix.order != []
  }

  function Dropped(ix: Index, path: string): Index {
    if path in ix.sizes then Index(Omit(ix.order, path), ix.sizes - {path}, ix.total - ix.sizes[path]) else ix
  }

  function Run(ix: Index, section: Section): Index {
    match section
    case List(path, size) =>
      Index(Omit(ix.order, path) + [path], ix.sizes[path := size],
            ix.total + size - if path in ix.sizes then ix.sizes[path] else 0)
    case Touch(path) => if path in ix.sizes then ix.(order := Omit(ix.order, path) + [path]) else ix
    case Drop(path) => Dropped(ix, path)
    case Evict(maxBytes) => if Overfull(ix, maxBytes) then Dropped(ix, ix.order[0]) else ix
  }

  lemma {:induction false} OmitMembers(order: seq<string>, path: string)
    ensures forall p :: p in Omit(order, path) <==> p in order && p != path
    ensures Distinct(order) ==> Distinct(Omit(order, path))
    decreases |order|
  {
    if order != [] {
      var n := |order| - 1;
      OmitMembers(order[..n], path);
      assert order == order[..n] + [order[n]];
      assert Distinct(order) ==> order[n] !in order[..n];
      var rest := Omit(order[..n], path);
      assert forall i | 0 <= i < |rest| :: rest[i] in rest;
    }
  }

  lemma {:induction false} OmitAbsent(order: seq<string>, path: string)
    requires path !in order
    ensures Omit(order, path) == order
    decreases |order|
  {
    if order != [] {
      var n := |order| - 1;
      assert order == order[..n] + [order[n]];
      OmitAbsent(order[..n], path);
    }
  }

  /** The sum depends only on the sizes of the listed paths. */
  lemma {:induction false} SumSame(order: seq<string>, sizes: map<string, nat>, other: map<string, nat>)
    requires forall p | p in order :: p in sizes <==> p in other
    requires forall p | p in order && p in sizes :: sizes[p] == other[p]
    ensures Sum(order, sizes) == Sum(order, other)
    decreases |order|
  {
    if order != [] {
      var n := |order| - 1;
      assert order[n] in order && forall p | p in order[..n] :: p in order;
      SumSame(order[..n], sizes, other);
    }
  }

  lemma {:induction false} SumOmit(order: seq<string>, sizes: map<string, nat>, path: string)
    requires Distinct(order) && path in order && path in sizes
    ensures Sum(order, sizes) == Sum(Omit(order, path), sizes) + sizes[path]
    decreases |order|
  {
    var n := |order| - 1;
    assert order == order[..n] + [order[n]];
    if order[n] == path {
      assert path !in order[..n];
      OmitAbsent(order[..n], path);
    } else {
      SumOmit(order[..n], sizes, path);
      assert Omit(order, path)[..|Omit(order, path)| - 1] == Omit(order[..n], path);
    }
  }

  lemma SumPush(order: seq<string>, sizes: map<string, nat>, path: string)
    requires path in sizes
    ensures Sum(order + [path], sizes) == Sum(order, sizes) + sizes[path]
  {
    assert (order + [path])[..|order|] == order;
  }

  lemma DropKeeps(ix: Index, path: string)
    requires Exact(ix)
    ensures Exact(Dropped(ix, path)) && path !in Dropped(ix, path).sizes
  {
    if path in ix.sizes {
      OmitMembers(ix.order, path);
      SumOmit(ix.order, ix.sizes, path);
      SumSame(Omit(ix.order, path), ix.sizes, ix.sizes - {path});
    }
  }

  lemma AppendKeeps(ix: Index, path: string, size: nat)
    requires Exact(ix) && path !in ix.sizes
    ensures Exact(Index(ix.order + [path], ix.sizes[path := size], ix.total + size))
  {
    SumSame(ix.order, ix.sizes, ix.sizes[path := size]);
    SumPush(ix.order, ix.sizes[path := size], path);
    assert forall i | 0 <= i < |ix.order| :: ix.order[i] in ix.order;
  }

  /** Listing is forgetting and then appending. */
  lemma ListIsAppend(ix: Index, path: string, size: nat)
    requires Exact(ix)
    ensures var d := Dropped(ix, path);
      Run(ix, List(path, size)) == Index(d.order + [path], d.sizes[path := size], d.total + size)
  {
    if path in ix.sizes {
      assert (ix.sizes - {path})[path := size] == ix.sizes[path := size];
    } else {
      OmitAbsent(ix.order, path);
    }
  }

  lemma ListKeeps(ix: Index, path: string, size: nat)
    requires Exact(ix)
    ensures Exact(Run(ix, List(path, size)))
  {
    hide Exact, Run, Dropped;
    DropKeeps(ix, path);
    AppendKeeps(Dropped(ix, path), path, size);
    ListIsAppend(ix, path, size);
  }

  lemma TouchKeeps(ix: Index, path: string)
    requires Exact(ix)
    ensures Exact(Run(ix, Touch(path)))
  {
    if path in ix.sizes {
      ListKeeps(ix, path, ix.sizes[path]);
      assert ix.sizes[path := ix.sizes[path]] == ix.sizes;
    }
  }

  /** Every locked section leaves the index exact, whichever caller runs it and whatever ran before. */
  lemma SectionKeepsExact(ix: Index, section: Section)
    requires Exact(ix)
    ensures Exact(Run(ix, section))
  {
    match section
    case List(path, size) => ListKeeps(ix, path, size);
    case Touch(path) => TouchKeeps(ix, path);
    case Drop(path) => DropKeeps(ix, path);
    case Evict(maxBytes) =>
      if Overfull(ix, maxBytes) {
        DropKeeps(ix, ix.order[0]);
      }
  }

  function RunAll(ix: Index, sections: seq<Section>): Index
    decreases |sections|
  {
    if sections == [] then ix else RunAll(Run(ix, sections[0]), sections[1..])
  }

  /** The index is exact at every lock release, under any interleaving of any callers' sections. */
  lemma {:induction false} SectionsKeepExact(ix: Index, sections: seq<Section>)
    requires Exact(ix)
    ensures Exact(RunAll(ix, sections))
    decreases |sections|
  {
    if sections != [] {
      SectionKeepsExact(ix, sections[0]);
      SectionsKeepExact(Run(ix, sections[0]), sections[1..]);
    }
  }

  // ----- Any number of puts and removes of one key ----------------------------------------------------------

  datatype Option<+T> = None | Some(value: T)

  /** One path: its file, the temporary file that all puts of the key share, and the size the index lists. */
  datatype Cell = Cell(file: Option<seq<byte>>, temp: Option<seq<byte>>, listed: Option<nat>)

  /** What a put does (write, move, list), what a remove or an eviction does (forget, delete). */
  datatype Deed =
    | Write(data: seq<byte>)
    | Move
    | Enlist(size: nat)
    | Forget
    | Erase

  /** Moving a temporary file that is gone fails. */
  function Do(c: Cell, d: Deed): Cell {
    match d
    case Write(data) => c.(temp := Some(data))
    case Move => if c.temp.Some? then c.(file := c.temp, temp := None) else c
    case Enlist(size) => c.(listed := Some(size))
    case Forget => c.(listed := None)
    case Erase => c.(file := None)
  }

  function DoAll(c: Cell, deeds: seq<Deed>): Cell {
    if deeds == [] then c else Do(DoAll(c, deeds[..|deeds| - 1]), deeds[|deeds| - 1])
  }

  predicate Truthful(c: Cell) {
    match c.listed
    case None => c.file.None?
    case Some(size) => c.file.Some? && |c.file.value| == size
  }

  /** Deed `k` is the last to change the index. */
  predicate LastListing(deeds: seq<Deed>, k: nat) {
    && k < |deeds| && (deeds[k].Enlist? || deeds[k].Forget?)
    && forall j | k < j < |deeds| :: !deeds[j].Enlist? && !deeds[j].Forget?
  }

  /** Deed `j` changes the file: an erasure, or a move of a temporary file that is there. */
  predicate ChangesFile(c: Cell, deeds: seq<Deed>, j: nat) {
    j < |deeds| && (deeds[j].Erase? || (deeds[j].Move? && DoAll(c, deeds[..j]).temp.Some?))
  }

  predicate LastChange(c: Cell, deeds: seq<Deed>, k: nat) {
    ChangesFile(c, deeds, k) && forall j | k < j < |deeds| :: !ChangesFile(c, deeds, j)
  }

  lemma {:induction false} ListedIs(c: Cell, deeds: seq<Deed>, k: nat)
    requires LastListing(deeds, k)
    ensures DoAll(c, deeds).listed == if deeds[k].Enlist? then Some(deeds[k].size) else None
    decreases |deeds|
  {
    if k < |deeds| - 1 {
      ListedIs(c, deeds[..|deeds| - 1], k);
    }
  }

  lemma {:induction false} FileIs(c: Cell, deeds: seq<Deed>, k: nat)
    requires LastChange(c, deeds, k)
    ensures DoAll(c, deeds).file == if deeds[k].Move? then DoAll(c, deeds[..k]).temp else None
    decreases |deeds|
  {
    var n := |deeds| - 1;
    if k < n {
      var front := deeds[..n];
      assert front[..k] == deeds[..k];
      forall j | k < j < n ensures !ChangesFile(c, front, j) {
        assert front[..j] == deeds[..j] && !ChangesFile(c, deeds, j);
      }
      FileIs(c, front, k);
      assert !ChangesFile(c, deeds, n);
    }
  }

  /** However any number of puts and removes of one key interleave, index and disk agree in the end if and only
      if the last deed on the index and the last deed on the file say the same: both that the file is gone, or
      both that it is there, and the listed size is that of the bytes that were moved. */
  lemma InterleavingAgreesExactly(c: Cell, deeds: seq<Deed>, i: nat, k: nat)
    requires LastListing(deeds, i) && LastChange(c, deeds, k)
    ensures Truthful(DoAll(c, deeds)) <==>
      if deeds[i].Forget? then deeds[k].Erase?
      else deeds[k].Move? && |DoAll(c, deeds[..k]).temp.value| == deeds[i].size
  {
    ListedIs(c, deeds, i);
    FileIs(c, deeds, k);
  }

  /** Deeds that neither write nor move leave the temporary file alone. */
  lemma {:induction false} TempStays(c: Cell, deeds: seq<Deed>, w: nat, m: nat, data: seq<byte>)
    requires w < m <= |deeds| && deeds[w] == Write(data)
    requires forall j | w < j < m :: !deeds[j].Write? && !deeds[j].Move?
    ensures DoAll(c, deeds[..m]).temp == Some(data)
    decreases m
  {
    assert deeds[..m][..m - 1] == deeds[..m - 1];
    if w < m - 1 {
      TempStays(c, deeds, w, m - 1, data);
    }
  }

  /** One put, at places w < m < e, and one remove, at places f < x, in any order: index and disk agree in the
      end if and only if the put lists before the remove forgets, or moves after the remove has erased. */
  lemma PutAndRemoveExactly(c: Cell, deeds: seq<Deed>, data: seq<byte>, w: nat, m: nat, e: nat, f: nat, x: nat)
    requires |deeds| == 5 && w < m < e < 5 && f < x < 5 && f != w && f != m && f != e && x != w && x != m && x != e
    requires deeds[w] == Write(data) && deeds[m] == Move && deeds[e] == Enlist(|data|)
    requires deeds[f] == Forget && deeds[x] == Erase
    ensures Truthful(DoAll(c, deeds)) <==> e < f || x < m
  {
    hide DoAll;
    TempStays(c, deeds, w, m, data);
    var i, k := if e < f then f else e, if m < x then x else m;
    assert LastListing(deeds, i);
    assert ChangesFile(c, deeds, m) && ChangesFile(c, deeds, x);
    assert LastChange(c, deeds, k);
    InterleavingAgreesExactly(c, deeds, i, k);
  }

  /** Two puts of one key share the temporary file: the first moves what the second wrote and lists its own
      size, and the second, whose move then fails, lists nothing. */
  lemma SharedTempDrifts(c: Cell, mine: seq<byte>, theirs: seq<byte>)
    ensures Truthful(DoAll(c, [Write(mine), Write(theirs), Move, Move, Enlist(|mine|)])) <==> |mine| == |theirs|
  {
    var deeds := [Write(mine), Write(theirs), Move, Move, Enlist(|mine|)];
    assert deeds[..1] == [Write(mine)] && deeds[..1][..0] == [];
    assert deeds[..2][..1] == deeds[..1] && deeds[..3][..2] == deeds[..2] && deeds[..4][..3] == deeds[..3];
    assert DoAll(c, deeds[..1]).temp == Some(mine);
    assert DoAll(c, deeds[..2]).temp == Some(theirs);
    assert DoAll(c, deeds[..3]) == DoAll(c, deeds[..2]).(file := Some(theirs), temp := None);
    assert DoAll(c, deeds[..4]) == DoAll(c, deeds[..3]);
  }
}
