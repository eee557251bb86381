/** The growing buffer at the end of `struct http` (`rena/src/http.c`). */
module HttpBuffer {
  import opened Bytes
  import opened Wrappers

  const MAX_STR: nat := 1024
  const STRUCT_SIZE: nat := 1104  // sizeof(struct http) where pointers have eight bytes

  /** The room for bytes in a block. */
  function Capacity(totalBlock: nat): (c: nat)
    requires STRUCT_SIZE <= totalBlock
  {
    totalBlock - STRUCT_SIZE + MAX_STR
  }

  /** The block after room has been asked for `more` bytes behind the `used` ones. */
  function Grown(totalBlock: nat, used: nat, more: nat): (total: nat)
    requires STRUCT_SIZE <= totalBlock
    ensures totalBlock <= total
  {
    var capacity := Capacity(totalBlock);
    if used + more >= capacity then
      totalBlock + STRUCT_SIZE * ((used + more) / capacity + 1)
    else totalBlock
  }

  /** A request that stays under twice the room adds two structures. */
  lemma GrownByTwo(totalBlock: nat, used: nat, more: nat)
    requires STRUCT_SIZE <= totalBlock
    requires Capacity(totalBlock) <= used + more < 2 * Capacity(totalBlock)
    ensures Grown(totalBlock, used, more) == totalBlock + 2 * STRUCT_SIZE
  {
    var capacity := Capacity(totalBlock);
    assert (used + more) / capacity == 1;
  }

  /** A block and how much of it is used. */
  datatype Fill = Fill(totalBlock: nat, used: nat)

  /** The block after one append. */
  function Put(f: Fill, more: nat): (g: Fill)
    requires STRUCT_SIZE <= f.totalBlock
    ensures STRUCT_SIZE <= g.totalBlock
  {
    Fill(Grown(f.totalBlock, f.used, more), f.used + more)
  }

  /** Nothing is written behind the block. */
  predicate Fits(f: Fill)
    requires STRUCT_SIZE <= f.totalBlock
  {
    f.used <= Capacity(f.totalBlock)
  }

  /** There is a byte to spare, which the scan of the headers looks at. */
  predicate Spare(f: Fill)
    requires STRUCT_SIZE <= f.totalBlock
  {
    f.used < Capacity(f.totalBlock)
  }

  /** Two structures' worth of bytes always fit behind a spare byte, and leave one again. */
  lemma TwoStructsFit(f: Fill, more: nat)
    requires STRUCT_SIZE <= f.totalBlock && Spare(f) && more <= 2 * STRUCT_SIZE
    ensures Spare(Put(f, more))
  {
    var capacity := Capacity(f.totalBlock);
    if f.used + more >= capacity {
      assert 1 <= (f.used + more) / capacity;
    }
  }

  /** The block after appending byte strings of these lengths. */
  function Appended(lengths: seq<nat>): (f: Fill)
    ensures STRUCT_SIZE <= f.totalBlock
  {
    if lengths == [] then Fill(STRUCT_SIZE, 0)
    else Put(Appended(lengths[..|lengths| - 1]), lengths[|lengths| - 1])
  }

  /** No append ran past its block. */
  predicate AllFit(lengths: seq<nat>) {
    forall n :: 0 <= n <= |lengths| ==> Fits(Appended(lengths[..n]))
  }

  lemma AllFitPush(lengths: seq<nat>, more: nat)
    ensures AllFit(lengths + [more]) <==> AllFit(lengths) && Fits(Put(Appended(lengths), more))
    ensures Appended(lengths + [more]) == Put(Appended(lengths), more)
  {
    var all := lengths + [more];
    assert all[..|lengths|] == lengths && all[..|all|] == all && lengths[..|lengths|] == lengths;
    assert forall n :: 0 <= n <= |lengths| ==> all[..n] == lengths[..n];
  }

  /** What fits, fits without its last appends too. */
  lemma AllFitPrefix(lengths: seq<nat>, n: nat)
    requires AllFit(lengths) && n <= |lengths|
    ensures AllFit(lengths[..n])
  {
    assert forall i :: 0 <= i <= n ==> lengths[..n][..i] == lengths[..i];
  }

  predicate AtMost(lengths: seq<nat>, limit: nat) {
    forall i :: 0 <= i < |lengths| ==> lengths[i] <= limit
  }

  lemma {:induction false} SmallAppendsSpare(lengths: seq<nat>)
    requires AtMost(lengths, 2 * STRUCT_SIZE)
    ensures Spare(Appended(lengths))
  {
    hide Put, Spare;
    if lengths == [] {
      NothingSpare();
    } else {
      var before, last := lengths[..|lengths| - 1], lengths[|lengths| - 1];
      SmallAppendsSpare(before);
      TwoStructsFit(Appended(before), last);
    }
  }

  lemma NothingSpare()
    ensures Spare(Appended([]))
  {
  }

  /** Every append of a history of short ones fits, and leaves a byte to spare. */
  lemma SmallAppendsFit(lengths: seq<nat>)
    requires AtMost(lengths, 2 * STRUCT_SIZE)
    ensures AllFit(lengths) && Spare(Appended(lengths))
  {
    hide Appended;
    forall n | 0 <= n <= |lengths|
      ensures Spare(Appended(lengths[..n]))
    {
      SmallAppendsSpare(lengths[..n]);
    }
    assert lengths[..|lengths|] == lengths;
  }

  lemma FirstFullBlock()
    ensures Appended([MAX_STR - 1, 1, 2 * STRUCT_SIZE - 1]) == Fill(3 * STRUCT_SIZE, MAX_STR + 2 * STRUCT_SIZE - 1)
  {
    hide Appended, Grown;
    AllFitPush([], MAX_STR - 1);
    AllFitPush([MAX_STR - 1], 1);
    AllFitPush([MAX_STR - 1, 1], 2 * STRUCT_SIZE - 1);
    assert [] + [MAX_STR - 1] == [MAX_STR - 1] && [MAX_STR - 1] + [1] == [MAX_STR - 1, 1];
    assert [MAX_STR - 1, 1] + [2 * STRUCT_SIZE - 1] == [MAX_STR - 1, 1, 2 * STRUCT_SIZE - 1];
    FirstBlocks();
  }

  lemma FirstBlocks()
    ensures Appended([]) == Fill(STRUCT_SIZE, 0)
    ensures Grown(STRUCT_SIZE, 0, MAX_STR - 1) == STRUCT_SIZE
    ensures Grown(STRUCT_SIZE, MAX_STR - 1, 1) == 3 * STRUCT_SIZE
    ensures Grown(3 * STRUCT_SIZE, MAX_STR, 2 * STRUCT_SIZE - 1) == 3 * STRUCT_SIZE
  {
  }

  /** Appends of at most two structures each can leave a block of any number of structures
  with a single byte to spare. */
  lemma {:induction false} FullBlock(k: nat) returns (lengths: seq<nat>)
    ensures AtMost(lengths, 2 * STRUCT_SIZE)
    ensures Appended(lengths) ==
      Fill(STRUCT_SIZE + 2 * STRUCT_SIZE * (k + 1), MAX_STR + 2 * STRUCT_SIZE * (k + 1) - 1)
  {
    hide Appended, Grown;
    if k == 0 {
      FirstFullBlock();
      lengths := [MAX_STR - 1, 1, 2 * STRUCT_SIZE - 1];
    } else {
      var before := FullBlock(k - 1);
      var f := Appended(before);
      GrownByTwo(f.totalBlock, f.used, 2 * STRUCT_SIZE);
      AllFitPush(before, 2 * STRUCT_SIZE);
      lengths := before + [2 * STRUCT_SIZE];
    }
  }

  /** Past two structures the growth falls short when a large block is full up to its last
  byte: by one byte more the block is filled, and the next such append overruns it; by two or
  more the first does. */
  lemma FullBlockOverruns(before: seq<nat>, k: nat, more: nat)
    requires 2 * STRUCT_SIZE < more <= MAX_STR + 2 * STRUCT_SIZE * k
    requires Appended(before) == Fill(STRUCT_SIZE + 2 * STRUCT_SIZE * k, MAX_STR + 2 * STRUCT_SIZE * k - 1)
    ensures !AllFit(before + [more] + [more])
    ensures 2 * STRUCT_SIZE + 1 < more ==> !AllFit(before + [more])
    ensures more == 2 * STRUCT_SIZE + 1 ==>
      Appended(before + [more]).used == Capacity(Appended(before + [more]).totalBlock)
  {
    hide Appended, AllFit, Grown;
    var f := Appended(before);
    GrownByTwo(f.totalBlock, f.used, more);
    AllFitPush(before, more);
    var g := Put(f, more);
    if more == 2 * STRUCT_SIZE + 1 {
      GrownByTwo(g.totalBlock, g.used, more);
    }
    AllFitPush(before + [more], more);
  }

  lemma LargeAppendOverruns(more: nat) returns (lengths: seq<nat>)
    requires 2 * STRUCT_SIZE < more
    ensures AtMost(lengths, more) && !AllFit(lengths)
  {
    var before := FullBlock(more);
    FullBlockOverruns(before, more + 1, more);
    lengths := before + [more] + [more];
  }

  /** Single bytes alone fill a block of any number of structures up to its last byte. */
  function Ones(m: nat): (l: seq<nat>)
    ensures |l| == m && AtMost(l, 1)
  {
    seq(m, _ => 1)
  }

  lemma OnesPush(m: nat)
    ensures Ones(m + 1) == Ones(m) + [1]
  {
  }

  lemma {:induction false} OnesGoOn(m: nat, j: nat)
    requires Appended(Ones(m)).used + j < Capacity(Appended(Ones(m)).totalBlock)
    ensures Appended(Ones(m + j)) == Fill(Appended(Ones(m)).totalBlock, Appended(Ones(m)).used + j)
  {
    hide Appended;
    if j > 0 {
      OnesGoOn(m, j - 1);
      OnesPush(m + j - 1);
      AllFitPush(Ones(m + j - 1), 1);
    }
  }

  lemma {:induction false} OnesFillBlock(k: nat)
    ensures Appended(Ones(MAX_STR + 2 * STRUCT_SIZE * k - 1)) ==
      Fill(STRUCT_SIZE + 2 * STRUCT_SIZE * k, MAX_STR + 2 * STRUCT_SIZE * k - 1)
  {
    hide Grown, Ones;
    var m := MAX_STR + 2 * STRUCT_SIZE * k - 1;
    if k == 0 {
      EmptyBlock();
      OnesGoOn(0, m);
    } else {
      var n := m - 2 * STRUCT_SIZE;
      OnesFillBlock(k - 1);
      var f := Appended(Ones(n));
      GrownByTwo(f.totalBlock, f.used, 1);
      OnesPush(n);
      AllFitPush(Ones(n), 1);
      OnesGoOn(n + 1, 2 * STRUCT_SIZE - 1);
    }
  }

  lemma EmptyBlock()
    ensures Appended(Ones(0)) == Fill(STRUCT_SIZE, 0)
  {
  }

  /** Twice the structure is exactly the largest append that is safe in every history. */
  lemma SafeAppendLength(limit: nat)
    ensures (forall lengths :: AtMost(lengths, limit) ==> AllFit(lengths)) <==> limit <= 2 * STRUCT_SIZE
  {
    if limit <= 2 * STRUCT_SIZE {
      forall lengths | AtMost(lengths, limit)
        ensures AllFit(lengths)
      {
        SmallAppendsFit(lengths);
      }
    } else {
      var lengths := LargeAppendOverruns(limit);
    }
  }

  /** A pointer into a structure's buffer. */
  datatype Pointer = Pointer(base: Http, at: nat)

  /** What the pointers point at, whatever block they point into. */
  datatype Table = Table(headers: seq<nat>, lengths: seq<nat>, payload: Option<nat>)

  function Offsets(ps: seq<Pointer>): (s: seq<nat>)
    ensures |s| == |ps|
    ensures forall i :: 0 <= i < |ps| ==> s[i] == ps[i].at
  {
    seq(|ps|, i requires 0 <= i < |ps| => ps[i].at)
  }

  class Http {
    const buffer: array<byte>
    var totalBlock: nat
    var bufferUsed: nat
    var headers: seq<Pointer>
    var headersLength: seq<nat>
    var payload: Option<Pointer>

    ghost predicate Valid()
      reads this
    {
      && STRUCT_SIZE <= totalBlock && buffer.Length == Capacity(totalBlock)
      && bufferUsed <= buffer.Length
      && |headers| == |headersLength|
      && (forall i :: 0 <= i < |headers| ==> PointsIn(headers[i]))
      && (payload.Some? ==> PointsIn(payload.value))
    }

    ghost predicate PointsIn(p: Pointer)
      reads this
    {
      p.base == this && p.at <= bufferUsed
    }

    ghost function FillOf(): Fill
      reads this
    {
      Fill(totalBlock, bufferUsed)
    }

    ghost function Contents(): Text
      requires bufferUsed <= buffer.Length
      reads this, buffer
    {
      buffer[..bufferUsed]
    }

    ghost function Places(): Table
      reads this
    {
      Table(Offsets(headers), headersLength, if payload.Some? then Some(payload.value.at) else None)
    }

    constructor (totalBlock: nat)
      requires STRUCT_SIZE <= totalBlock
      ensures Valid() && fresh(buffer) && this.totalBlock == totalBlock
      ensures Contents() == [] && Places() == Table([], [], None)
    {
      buffer := new byte[Capacity(totalBlock)](_ => NUL);
      this.totalBlock, bufferUsed, headers, headersLength, payload := totalBlock, 0, [], [], None;
    }
  }

  /** Moves everything to a larger block and turns the pointers to it. */
  method CopyInternalData(target: Http, source: Http, targetSize: nat)
    requires source.Valid() && source.totalBlock <= targetSize && target != source
    requires target.buffer != source.buffer && target.buffer.Length == Capacity(targetSize)
    modifies target, target.buffer
    ensures target.Valid() && target.totalBlock == targetSize
    ensures target.Contents() == source.Contents() && target.Places() == source.Places()
  {
    forall k | 0 <= k < source.buffer.Length {
      target.buffer[k] := source.buffer[k];
    }
    target.bufferUsed, target.headers, target.headersLength, target.payload :=
      source.bufferUsed, source.headers, source.headersLength, source.payload;
    target.totalBlock := targetSize;
    var i := 0;
    while i < |source.headers|
      modifies target`headers
      invariant i <= |source.headers| == |target.headers|
      invariant forall k :: 0 <= k < |target.headers| ==>
        target.headers[k].at == source.headers[k].at && (k < i ==> target.headers[k].base == target)
    {
      var diffHeader := source.headers[i].at;
      target.headers := target.headers[i := Pointer(target, diffHeader)];
      i := i + 1;
    }
    if source.payload.Some? {
      target.payload := Some(Pointer(target, source.payload.value.at));
    }
    assert Offsets(target.headers) == Offsets(source.headers);
    assert target.buffer[..target.bufferUsed] == source.buffer[..source.bufferUsed];
  }

  class Client {
    var protocol: Http

    constructor ()
      ensures protocol.Valid() && fresh(protocol) && fresh(protocol.buffer)
      ensures protocol.totalBlock == STRUCT_SIZE && protocol.Contents() == []
    {
      protocol := new Http(STRUCT_SIZE);
    }
  }

  method ReallocationProtocol(c: Client, olen: nat) returns (moved: bool)
    requires c.protocol.Valid()
    modifies c
    ensures c.protocol.Valid() && c.protocol.Contents() == old(c.protocol.Contents())
    ensures c.protocol.Places() == old(c.protocol.Places())
    ensures c.protocol.totalBlock == Grown(old(c.protocol.totalBlock), old(c.protocol.bufferUsed), olen)
    ensures if moved then fresh(c.protocol) && fresh(c.protocol.buffer) else c.protocol == old(c.protocol)
  {
    var h := c.protocol;
    var strSize := h.totalBlock - STRUCT_SIZE + MAX_STR;
    var newSize := h.bufferUsed + olen;
    moved := false;
    if newSize >= strSize {
      var r := newSize / strSize + 1;
      var total := h.totalBlock + STRUCT_SIZE * r;
      var hl := new Http(total);
      CopyInternalData(hl, h, total);
      c.protocol := hl;
      moved := true;
    }
  }

  /** Appends to the buffer, wherever it now is: the bytes follow what was there, and the
  headers and the payload are where they were in it. The source does not check that the
  grown block has room; when it has none, the copy runs past it. */
  method ForceOntoBuffer(c: Client, o: Text) returns (moved: bool)
    requires c.protocol.Valid() && Fits(Put(c.protocol.FillOf(), |o|))
    modifies c, c.protocol, c.protocol.buffer
    ensures c.protocol.Valid() && c.protocol.Contents() == old(c.protocol.Contents()) + o
    ensures c.protocol.Places() == old(c.protocol.Places())
    ensures c.protocol.FillOf() == Put(old(c.protocol.FillOf()), |o|)
    ensures if moved then fresh(c.protocol) && fresh(c.protocol.buffer) else c.protocol == old(c.protocol)
  {
    moved := ReallocationProtocol(c, |o|);
    var h := c.protocol;
    ghost var was := h.Contents();
    forall k | 0 <= k < |o| {
      h.buffer[h.bufferUsed + k] := o[k];
    }
    assert h.buffer[..h.bufferUsed] == was;
    h.bufferUsed := h.bufferUsed + |o|;
    assert h.Contents() == was + o;
  }
}
