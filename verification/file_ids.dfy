/**
  The file-id map of libharvid/decoder_ctrl.c: the hash tables vml (by file name) and vmr (by
  id) over the same entries, with the eviction of the least recently used entry.

  `Ids` is what the rest of the server sees of it; `issued` is a history variable: every id
  ever issued and the file it was issued for.  Claims about ids cover runs before the 16-bit
  counter wraps, as CanIssue says.
  */
module FileIds {
  import opened Wrappers
  import opened Sequences
  import opened DecoderObject

  const MAX_ID: nat := 0xffff

  datatype Ids = Ids(fnToId: map<File, nat>, idToFn: map<nat, File>, next: nat, size: nat, issued: map<nat, File>)

  function NoIds(size: nat): Ids
  {
    Ids(map[], map[], 1, size, map[])
  }

  function DropFile(s: Ids, f: File): Ids
  {
    if f in s.fnToId then s.(fnToId := s.fnToId - {f}, idToFn := s.idToFn - {s.fnToId[f]}) else s
  }

  function DropId(s: Ids, id: nat): Ids
  {
    if id in s.idToFn then DropFile(s, s.idToFn[id]) else s
  }

  function Issue(s: Ids, file: File, evict: File): Ids
  {
    Added(if |s.fnToId| >= s.size then DropFile(s, evict) else s, file)
  }

  function Added(s: Ids, file: File): Ids
  {
    Ids(s.fnToId[file := s.next], s.idToFn[s.next := file], s.next + 1, s.size, s.issued[s.next := file])
  }

  predicate CanIssue(s: Ids, evict: File)
  {
    && s.next <= MAX_ID
    && (|s.fnToId| >= s.size && s.fnToId != map[] ==> evict in s.fnToId)
  }

  /** The two maps are inverse to each other, and ids are never 0 and never issued twice. */
  ghost predicate IdsOk(s: Ids)
  {
    && 1 <= s.next
    && (forall f {:trigger FileOk(s, f)} :: FileOk(s, f))
    && (forall i {:trigger IdOk(s, i)} :: IdOk(s, i))
    && (forall i {:trigger i in s.issued} :: i in s.issued <==> 0 < i < s.next)
  }

  predicate FileOk(s: Ids, f: File)
  {
    f in s.fnToId ==> s.fnToId[f] in s.idToFn && s.idToFn[s.fnToId[f]] == f
  }

  predicate IdOk(s: Ids, i: nat)
  {
    i in s.idToFn ==> s.idToFn[i] in s.fnToId && s.fnToId[s.idToFn[i]] == i && i in s.issued && s.issued[i] == s.idToFn[i]
  }

  lemma DropKeepsIds(s: Ids, f: File)
    requires IdsOk(s)
    ensures IdsOk(DropFile(s, f))
  {
    var s' := DropFile(s, f);
    assert FileOk(s, f);
    forall g ensures FileOk(s', g) {
      assert FileOk(s, g);
    }
    forall i ensures IdOk(s', i) {
      assert IdOk(s, i);
    }
  }

  lemma DropIdKeepsIds(s: Ids, id: nat)
    requires IdsOk(s)
    ensures IdsOk(DropId(s, id))
  {
    if id in s.idToFn {
      DropKeepsIds(s, s.idToFn[id]);
    }
  }

  lemma IssueKeepsIds(s: Ids, file: File, evict: File)
    requires IdsOk(s) && file !in s.fnToId
    ensures IdsOk(Issue(s, file, evict)) && s.next !in s.issued && s.next > 0
  {
    DropKeepsIds(s, evict);
    AddKeepsIds(if |s.fnToId| >= s.size then DropFile(s, evict) else s, file);
  }

  lemma AddKeepsIds(s: Ids, file: File)
    requires IdsOk(s) && file !in s.fnToId
    ensures IdsOk(Added(s, file)) && s.next !in s.issued
  {
    var s' := Added(s, file);
    assert IdOk(s, s.next);
    forall g ensures FileOk(s', g) {
      assert FileOk(s, g);
    }
    forall i ensures IdOk(s', i) {
      assert IdOk(s, i);
    }
  }

  /** The map never has more entries than it was configured for (but always room for one). */
  lemma IssueKeepsSize(s: Ids, file: File, evict: File)
    requires CanIssue(s, evict) && file !in s.fnToId && |s.fnToId| <= MaxEntries(s.size)
    ensures |Issue(s, file, evict).fnToId| <= MaxEntries(s.size)
  {
    var u := if |s.fnToId| >= s.size then DropFile(s, evict) else s;
    if |s.fnToId| >= s.size && s.fnToId != map[] {
      SizeAfterDrop(s.fnToId, evict);
    }
    SizeAfterInsert(u.fnToId, file, s.next);
  }

  lemma SizeAfterDrop(m: map<File, nat>, f: File)
    requires f in m
    ensures |m - {f}| == |m| - 1
  {
    assert (m - {f}).Keys == m.Keys - {f};
  }

  lemma SizeAfterInsert(m: map<File, nat>, f: File, i: nat)
    ensures |m[f := i]| <= |m| + 1
  {
    assert m[f := i].Keys == m.Keys + {f};
  }

  function MaxEntries(size: nat): nat
  {
    if size < 1 then 1 else size
  }

  datatype Entry = Entry(id: nat, lru: int)

  ghost function IdsOf(vml: map<File, Entry>): map<File, nat>
  {
    map f | f in vml :: vml[f].id
  }

  lemma IdsOfInsert(vml: map<File, Entry>, f: File, e: Entry)
    ensures IdsOf(vml[f := e]) == IdsOf(vml)[f := e.id]
    ensures |vml[f := e]| == if f in vml then |vml| else |vml| + 1
  {
    assert vml[f := e].Keys == vml.Keys + {f};
  }

  lemma IdsOfDrop(vml: map<File, Entry>, f: File)
    ensures IdsOf(vml - {f}) == IdsOf(vml) - {f}
    ensures |vml - {f}| == if f in vml then |vml| - 1 else |vml|
  {
    assert (vml - {f}).Keys == vml.Keys - {f};
  }

  class FileMap {
    var vml: map<File, Entry>
    var vmr: map<nat, File>
    var order: seq<File>     // HASH_ITER order of vml
    var monotonic: nat
    const cacheSize: nat

    /** The entries, once each in the iteration order; no entry is from the future. */
    ghost predicate Valid(now: int)
      reads this
    {
      && NoRepeats(order)
      && (forall f :: f in order <==> f in vml)
      && (forall f :: f in vml ==> vml[f].lru <= now)
      && |vml| <= MaxEntries(cacheSize)
    }

    /** The map as the rest of the server sees it. */
    ghost predicate Represents(s: Ids)
      reads this
    {
      && s.fnToId == IdsOf(vml)
      && s.idToFn == vmr
      && s.size == cacheSize
      && monotonic == if s.next > MAX_ID then 1 else s.next
    }

    constructor (size: nat)
      ensures vml == map[] && vmr == map[] && monotonic == 1 && cacheSize == size
      ensures forall now :: Valid(now)
    {
      vml, vmr, order, monotonic, cacheSize := map[], map[], [], 1, size;
    }

    /**
      get_id.  A known file keeps its id.  A new file gets the next id, and if the map was full
      the least recently used entry makes room.
      */
    method GetId(fn: File, now: int, ghost s: Ids) returns (id: nat, ghost evicted: File)
      requires Valid(now) && Represents(s) && IdsOk(s)
      requires fn !in vml ==> s.next <= MAX_ID
      modifies this
      ensures Valid(now)
      ensures fn in vml && vml[fn] == Entry(id, now) && id in vmr && vmr[id] == fn
      ensures fn in old(vml) ==> id == old(vml)[fn].id && Represents(s) && vml == old(vml)[fn := Entry(id, now)]
      ensures fn !in old(vml) ==> id == s.next && Represents(Issue(s, fn, evicted))
      ensures fn !in old(vml) && |old(vml)| < cacheSize ==> vml == old(vml)[fn := Entry(id, now)]
      ensures fn !in old(vml) && |old(vml)| >= cacheSize ==> vml == (old(vml) - {evicted})[fn := Entry(id, now)]
      ensures fn !in old(vml) && |old(vml)| >= cacheSize && old(vml) != map[] ==>
        evicted in old(vml) && forall f :: f in old(vml) ==> old(vml)[evicted].lru <= old(vml)[f].lru
    {
      evicted := fn;
      if fn in vml {
        id := vml[fn].id;
        IdsOfInsert(vml, fn, Entry(id, now));
        assert FileOk(s, fn);
        vml := vml[fn := Entry(id, now)];
      } else {
        id, evicted := NewId(fn, now, s);
      }
    }

    method NewId(fn: File, now: int, ghost s: Ids) returns (id: nat, ghost evicted: File)
      requires Valid(now) && Represents(s) && fn !in vml && s.next <= MAX_ID
      modifies `vml, `vmr, `order, `monotonic
      ensures Valid(now) && id == s.next && Represents(Issue(s, fn, evicted))
      ensures fn in vml && vml[fn] == Entry(id, now) && id in vmr && vmr[id] == fn
      ensures |old(vml)| < cacheSize ==> vml == old(vml)[fn := Entry(id, now)]
      ensures |old(vml)| >= cacheSize ==> vml == (old(vml) - {evicted})[fn := Entry(id, now)]
      ensures |old(vml)| >= cacheSize && old(vml) != map[] ==>
        evicted in old(vml) && forall f :: f in old(vml) ==> old(vml)[evicted].lru <= old(vml)[f].lru
    {
      ghost var u;
      evicted, u := MakeRoom(fn, now, s);
      id := Insert(fn, now, u);
    }

    /** If the map is full, the least recently used entry goes. */
    method MakeRoom(fn: File, now: int, ghost s: Ids) returns (ghost evicted: File, ghost u: Ids)
      requires Valid(now) && Represents(s) && fn !in vml
      modifies `vml, `vmr, `order
      ensures Valid(now) && Represents(u) && fn !in vml && |vml| < MaxEntries(cacheSize)
      ensures u == if |s.fnToId| >= s.size then DropFile(s, evicted) else s
      ensures vml == if |old(vml)| >= cacheSize then old(vml) - {evicted} else old(vml)
      ensures |old(vml)| >= cacheSize && old(vml) != map[] ==>
        evicted in old(vml) && forall f :: f in old(vml) ==> old(vml)[evicted].lru <= old(vml)[f].lru
    {
      evicted, u := fn, s;
      NoRepeatsCount(order, vml.Keys);
      assert IdsOf(vml).Keys == vml.Keys;
      if |order| >= cacheSize {
        var vlru := LeastRecent(now);
        if vlru.Some? {
          evicted := vlru.value;
          Drop(vlru.value, now, s);
        } else {
          assert vml - {fn} == vml;
        }
        u := DropFile(s, evicted);
      }
    }

    /** The first of the entries that were not used for the longest time. */
    method LeastRecent(now: int) returns (vlru: Option<File>)
      requires Valid(now)
      ensures vlru.None? <==> vml == map[]
      ensures vlru.Some? ==> vlru.value in vml && forall f :: f in vml ==> vml[vlru.value].lru <= vml[f].lru
    {
      vlru := None;
      var lru := now + 1;
      var i := 0;
      while i < |order|
        invariant 0 <= i <= |order|
        invariant vlru.None? ==> lru == now + 1 && i == 0
        invariant vlru.Some? ==> vlru.value in vml && vml[vlru.value].lru == lru
        invariant forall j :: 0 <= j < i ==> lru <= vml[order[j]].lru
      {
        if vml[order[i]].lru < lru {
          lru := vml[order[i]].lru;
          vlru := Some(order[i]);
        }
        i := i + 1;
      }
      assert forall f :: f in vml ==> f in order;
    }

    /** HASH_DEL from both tables. */
    method Drop(fn: File, now: int, ghost s: Ids)
      requires Valid(now) && Represents(s) && fn in vml
      modifies `vml, `vmr, `order
      ensures Valid(now) && Represents(DropFile(s, fn))
      ensures vml == old(vml) - {fn} && |vml| == |old(vml)| - 1
    {
      DropEntry(fn);
    }

    method DropEntry(fn: File)
      requires fn in vml && NoRepeats(order) && forall f :: f in order <==> f in vml
      modifies `vml, `vmr, `order
      ensures NoRepeats(order) && forall f :: f in order <==> f in vml
      ensures vml == old(vml) - {fn} && vmr == old(vmr) - {old(vml)[fn].id}
      ensures IdsOf(vml) == IdsOf(old(vml)) - {fn} && |vml| == |old(vml)| - 1
    {
      DroppedElements(order, fn);
      IdsOfDrop(vml, fn);
      vmr := vmr - {vml[fn].id};
      vml := vml - {fn};
      order := Dropped(order, fn);
    }

    /** Give the next id to a file; past 65535 the counter starts again at 1. */
    method Insert(fn: File, now: int, ghost s: Ids) returns (id: nat)
      requires Valid(now) && Represents(s) && fn !in vml && s.next <= MAX_ID
      requires |vml| < MaxEntries(cacheSize)
      modifies `vml, `vmr, `order, `monotonic
      ensures Valid(now) && id == s.next
      ensures vml == old(vml)[fn := Entry(id, now)] && id in vmr && vmr[id] == fn
      ensures Represents(Added(s, fn))
    {
      id := monotonic;
      CountOn();
      InsertEntry(fn, id, now);
    }

    method InsertEntry(fn: File, id: nat, now: int)
      requires Valid(now) && fn !in vml && |vml| < MaxEntries(cacheSize)
      modifies `vml, `vmr, `order
      ensures Valid(now) && vml == old(vml)[fn := Entry(id, now)] && vmr == old(vmr)[id := fn]
      ensures IdsOf(vml) == IdsOf(old(vml))[fn := id]
    {
      NoRepeatsAppend(order, fn);
      IdsOfInsert(vml, fn, Entry(id, now));
      vml := vml[fn := Entry(id, now)];
      vmr := vmr[id := fn];
      order := order + [fn];
    }

    /** The counter has 16 bits, and 0 is no id. */
    method CountOn()
      requires monotonic <= MAX_ID
      modifies `monotonic
      ensures monotonic == if old(monotonic) == MAX_ID then 1 else old(monotonic) + 1
    {
      monotonic := (monotonic + 1) % 0x1_0000;
      if monotonic == 0 {
        monotonic := 1;
      }
    }

    /** get_fn */
    method GetFn(id: nat) returns (fn: Option<File>)
      ensures fn == if id in vmr then Some(vmr[id]) else None
    {
      fn := if id in vmr then Some(vmr[id]) else None;
    }

    /** release_id */
    method ReleaseId(id: nat, now: int, ghost s: Ids)
      requires Valid(now) && Represents(s) && IdsOk(s)
      modifies `vml, `vmr, `order
      ensures Valid(now) && Represents(DropId(s, id))
      ensures vmr == old(vmr) - {id}
      ensures vml == if id in old(vmr) then old(vml) - {old(vmr)[id]} else old(vml)
    {
      var fn := GetFn(id);
      if fn.Some? {
        assert IdOk(s, id);
        Drop(fn.value, now, s);
      }
    }

    /** clearvid: empty both tables; `ids` are the ids whose cache lines and decoders are cleared, in this order. */
    method ClearAll(now: int, ghost s: Ids) returns (ids: seq<nat>)
      requires Valid(now) && Represents(s) && IdsOk(s)
      modifies `vml, `vmr, `order
      ensures Valid(now) && vml == map[] && vmr == map[]
      ensures forall id :: id in ids <==> id in old(vmr)
    {
      ids := [];
      ghost var u := s;
      while order != []
        invariant Valid(now) && Represents(u) && IdsOk(u)
        invariant forall id :: id in old(vmr) <==> id in vmr || id in ids
        decreases |vml|
      {
        var fn := order[0];
        assert FileOk(u, fn);
        ids := ids + [vml[fn].id];
        Drop(fn, now, u);
        DropKeepsIds(u, fn);
        u := DropFile(u, fn);
      }
      NothingLeft(u);
    }

    lemma NothingLeft(s: Ids)
      requires Represents(s) && IdsOk(s) && order == [] && forall f :: f in order <==> f in vml
      ensures vml == map[] && vmr == map[]
    {
      assert vml == map[];
      assert s.fnToId == map[];
      assert forall id :: IdOk(s, id) ==> id !in s.idToFn;
    }
  }
}
