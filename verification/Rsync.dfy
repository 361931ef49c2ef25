/** The delta protocol: signatures, lookup table, sync and apply, from one end to the other. */
module Rsync {
  import opened RsyncHash

  const BLOCK: nat := 6144

  datatype Signature = Signature(index: nat, weak: int, strong: seq<Byte>)

  /** An operation without data stands for a block of the old file. */
  datatype Operation = Operation(index: nat, data: seq<Byte>)

  /** What a read of one block at `offset` returns; it is short only at the end. */
  function ReadAt(data: seq<Byte>, offset: nat): (r: seq<Byte>)
    ensures |r| <= BLOCK
  {
    if offset >= |data| then [] else if |data| - offset < BLOCK then data[offset..] else data[offset..offset + BLOCK]
  }

  function BlockAt(data: seq<Byte>, index: nat): seq<Byte> {
    ReadAt(data, index * BLOCK)
  }

  ghost predicate IsSignature(s: Signature, cache: seq<Byte>, strong: seq<Byte> -> seq<Byte>) {
    && s.index * BLOCK < |cache|
    && s.weak == Packed(WeakOf(BlockAt(cache, s.index))) && s.strong == strong(BlockAt(cache, s.index))
  }

  // ----- server: signatures -----

  method Signatures(cache: seq<Byte>, strong: seq<Byte> -> seq<Byte>) returns (sigs: seq<Signature>)
    ensures forall i :: 0 <= i < |sigs| ==> sigs[i].index == i && IsSignature(sigs[i], cache, strong)
    ensures |sigs| * BLOCK >= |cache|
  {
    sigs := [];
    var index := 0;
    while true
      invariant |sigs| == index && (index > 0 ==> (index - 1) * BLOCK < |cache|)
      invariant forall i :: 0 <= i < |sigs| ==> sigs[i].index == i && IsSignature(sigs[i], cache, strong)
      decreases |cache| + BLOCK - index * BLOCK
    {
      var block := ReadAt(cache, index * BLOCK);
      if |block| == 0 {
        return;
      }
      var weak := RollingHash(block);
      sigs := sigs + [Signature(index, Packed(weak), strong(block))];
      index := index + 1;
    }
  }

  // ----- client: lookup table -----

  type Table = map<int, seq<Signature>>

  /** The signatures with the given weak checksum, in order. */
  ghost function Bucket(sigs: seq<Signature>, weak: int): seq<Signature> {
    if sigs == [] then [] else
      var last := sigs[|sigs| - 1];
      Bucket(sigs[..|sigs| - 1], weak) + if last.weak == weak then [last] else []
  }

  ghost predicate IsTable(table: Table, sigs: seq<Signature>) {
    forall w :: if w in table then table[w] == Bucket(sigs, w) != [] else Bucket(sigs, w) == []
  }

  method LookUpTable(sigs: seq<Signature>) returns (table: Table)
    ensures IsTable(table, sigs)
  {
    table := map[];
    for i := 0 to |sigs|
      invariant IsTable(table, sigs[..i])
    {
      var c := sigs[i];
      assert sigs[..i + 1][..i] == sigs[..i];
      var chain := if c.weak in table then table[c.weak] else [];
      table := table[c.weak := chain + [c]];
    }
    assert sigs[..|sigs|] == sigs;
  }

  // ----- server: apply -----

  function Piece(cache: seq<Byte>, op: Operation): seq<Byte> {
    if |op.data| > 0 then op.data else BlockAt(cache, op.index)
  }

  ghost function Rebuilt(cache: seq<Byte>, ops: seq<Operation>): seq<Byte> {
    if ops == [] then [] else Rebuilt(cache, ops[..|ops| - 1]) + Piece(cache, ops[|ops| - 1])
  }

  method Apply(cache: seq<Byte>, ops: seq<Operation>) returns (dst: seq<Byte>)
    ensures dst == Rebuilt(cache, ops)
  {
    dst := [];
    for i := 0 to |ops|
      invariant dst == Rebuilt(cache, ops[..i])
    {
      assert ops[..i + 1][..i] == ops[..i];
      dst := dst + Piece(cache, ops[i]);
    }
    assert ops[..|ops|] == ops;
  }

  lemma {:induction false} RebuiltJoin(cache: seq<Byte>, a: seq<Operation>, b: seq<Operation>)
    ensures Rebuilt(cache, a + b) == Rebuilt(cache, a) + Rebuilt(cache, b)
    decreases |b|
  {
    if b == [] {
      assert a + b == a;
    } else {
      var front := b[..|b| - 1];
      RebuiltJoin(cache, a, front);
      assert (a + b)[..|a + b| - 1] == a + front;
      Associative(Rebuilt(cache, a), Rebuilt(cache, front), Piece(cache, b[|b| - 1]));
    }
  }

  lemma Associative(x: seq<Byte>, y: seq<Byte>, z: seq<Byte>)
    ensures x + (y + z) == (x + y) + z
  {
  }

  lemma RebuiltMore(cache: seq<Byte>, ops: seq<Operation>, op: Operation)
    ensures Rebuilt(cache, ops + [op]) == Rebuilt(cache, ops) + Piece(cache, op)
  {
    assert (ops + [op])[..|ops|] == ops;
  }

  // ----- client: what sync sends -----

  datatype Option<+T> = None | Some(value: T)

  /** Literal data, block by block. */
  ghost function Chunks(delta: seq<Byte>): seq<Operation>
    decreases |delta|
  {
    if delta == [] then [] else
      var block := ReadAt(delta, 0);
      [Operation(0, block)] + Chunks(delta[|block|..])
  }

  /** The first signature in the chain with the given strong hash. */
  ghost function FirstStrong(chain: seq<Signature>, strong: seq<Byte>): Option<nat> {
    if chain == [] then None
    else if chain[0].strong == strong then Some(chain[0].index)
    else FirstStrong(chain[1..], strong)
  }

  ghost function Hit(table: Table, weak: int, strong: seq<Byte>): Option<nat> {
    if weak in table then FirstStrong(table[weak], strong) else None
  }

  /** The window has been slid here from the byte before. */
  ghost predicate SlidHere(file: seq<Byte>, offset: nat) {
    0 < offset <= |file| && |ReadAt(file, offset - 1)| == BLOCK
  }

  /** The checksum the client has at `offset`: that of the window, except where a slid window
      meets the end of the file and shrinks. */
  ghost function WeakSeen(file: seq<Byte>, offset: nat, rolling: bool): Weak
    requires rolling ==> SlidHere(file, offset)
  {
    var block := ReadAt(file, offset);
    if rolling && |block| < BLOCK
    then RollingHash2(|block|, WeakOf(ReadAt(file, offset - 1)), file[offset - 1], file[|file| - 1])
    else WeakOf(block)
  }

  /** A choice of tokens: at an offset, for a slid window or a fresh one, which old block to name. */
  type Choice = (nat, bool) -> Option<nat>

  /** What a client sends that follows a given choice of tokens. */
  ghost function PlanFrom(file: seq<Byte>, choose: Choice, offset: nat, rolling: bool, delta: seq<Byte>): seq<Operation>
    requires offset <= |file|
    decreases |file| - offset
  {
    var block := ReadAt(file, offset);
    var hit := choose(offset, rolling);
    if hit.Some? then
      Chunks(delta) + [Operation(hit.value, [])] +
      if |block| < BLOCK then [] else PlanFrom(file, choose, offset + BLOCK, false, [])
    else if |block| < BLOCK then Chunks(delta + block)
    else PlanFrom(file, choose, offset + 1, true, delta + [block[0]])
  }

  /** The choice the client makes: the first signature with the checksum it has and the strong
      hash of the window. */
  ghost function Choose(file: seq<Byte>, table: Table, strong: seq<Byte> -> seq<Byte>): Choice {
    (offset: nat, rolling: bool) =>
      if rolling && !SlidHere(file, offset) then None
      else Hit(table, Packed(WeakSeen(file, offset, rolling)), strong(ReadAt(file, offset)))
  }

  /** All operations for a file. Without signatures everything is sent as it is. */
  ghost function Plan(file: seq<Byte>, table: Table, strong: seq<Byte> -> seq<Byte>): seq<Operation> {
    if table == map[] then Chunks(file) else PlanFrom(file, Choose(file, table, strong), 0, false, [])
  }

  /** One block more. */
  lemma ChunksNext(data: seq<Byte>, pos: nat, ops: seq<Operation>)
    requires pos < |data|
    ensures var block := ReadAt(data, pos);
            ops + Chunks(data[pos..]) == ops + [Operation(0, block)] + Chunks(data[pos + |block|..])
  {
    var block, rest := ReadAt(data, pos), data[pos..];
    assert ReadAt(rest, 0) == block;
    assert rest[|block|..] == data[pos + |block|..];
    Regroup(ops, [Operation(0, block)], [], Chunks(data[pos + |block|..]));
    assert Chunks(rest) == [Operation(0, block)] + Chunks(data[pos + |block|..]);
  }

  // ----- client: sync -----

  method Send(delta: seq<Byte>) returns (ops: seq<Operation>)
    ensures ops == Chunks(delta)
  {
    ops := [];
    var pos := 0;
    while pos < |delta|
      invariant pos <= |delta| && Chunks(delta) == ops + Chunks(delta[pos..])
    {
      var block := ReadAt(delta, pos);
      ChunksNext(delta, pos, ops);
      ops := ops + [Operation(0, block)];
      pos := pos + |block|;
    }
  }

  method Search(chain: seq<Signature>, strong: seq<Byte>) returns (hit: Option<nat>)
    ensures hit == FirstStrong(chain, strong)
  {
    var i := 0;
    while i < |chain|
      invariant i <= |chain| && FirstStrong(chain, strong) == FirstStrong(chain[i..], strong)
    {
      if chain[i].strong == strong {
        return Some(chain[i].index);
      }
      assert chain[i..][1..] == chain[i + 1..];
      i := i + 1;
    }
    return None;
  }

  /** Without signatures: the file, block by block. */
  method SendAll(file: seq<Byte>) returns (ops: seq<Operation>)
    ensures ops == Chunks(file)
  {
    ops := [];
    var offset := 0;
    while true
      invariant offset <= |file| && Chunks(file) == ops + Chunks(file[offset..])
      decreases |file| - offset
    {
      var block := ReadAt(file, offset);
      if |block| > 0 {
        ChunksNext(file, offset, ops);
        ops := ops + [Operation(0, block)];
        offset := offset + |block|;
      }
      if |block| < BLOCK {
        return;
      }
    }
  }

  method Sync(file: seq<Byte>, table: Table, strong: seq<Byte> -> seq<Byte>) returns (ops: seq<Operation>)
    ensures ops == Plan(file, table, strong)
  {
    if |table| == 0 {
      ops := SendAll(file);
      return;
    }
    ops := [];
    var offset, rolling, delta := 0, false, [];
    var weak, outgoing := Weak(0, 0), 0;
    ghost var choose, plan := Choose(file, table, strong), Plan(file, table, strong);
    while true
      invariant Ready(file, offset, rolling, weak, outgoing)
      invariant plan == ops + PlanFrom(file, choose, offset, rolling, delta)
      decreases |file| - offset
    {
      var block := ReadAt(file, offset);
      var n := |block|;
      var hit;
      weak, hit := Match(file, offset, block, rolling, weak, outgoing, table, strong);
      PlanUnfolds(file, choose, offset, rolling, delta, ops, block, hit);
      if hit.Some? {
        var literal := Send(delta);
        ops := ops + literal + [Operation(hit.value, [])];
        if n < BLOCK {
          return;
        }
        offset, rolling, delta := offset + n, false, [];
      } else {
        if n < BLOCK {
          var literal := Send(delta + block);
          ops := ops + literal;
          return;
        }
        rolling, outgoing, delta, offset := true, block[0], delta + [block[0]], offset + 1;
      }
    }
  }

  /** One turn of the loop, behind what has been sent. */
  lemma PlanUnfolds(file: seq<Byte>, choose: Choice, offset: nat, rolling: bool, delta: seq<Byte>, ops: seq<Operation>,
                    block: seq<Byte>, hit: Option<nat>)
    requires offset <= |file| && block == ReadAt(file, offset) && hit == choose(offset, rolling)
    ensures hit.Some? && |block| < BLOCK ==>
              ops + PlanFrom(file, choose, offset, rolling, delta) == ops + Chunks(delta) + [Operation(hit.value, [])]
    ensures hit.Some? && |block| == BLOCK ==>
              ops + PlanFrom(file, choose, offset, rolling, delta)
              == ops + Chunks(delta) + [Operation(hit.value, [])] + PlanFrom(file, choose, offset + BLOCK, false, [])
    ensures hit.None? && |block| < BLOCK ==>
              ops + PlanFrom(file, choose, offset, rolling, delta) == ops + Chunks(delta + block)
    ensures hit.None? && |block| == BLOCK ==>
              ops + PlanFrom(file, choose, offset, rolling, delta)
              == ops + PlanFrom(file, choose, offset + 1, true, delta + [block[0]])
  {
    if hit.Some? {
      var rest := if |block| < BLOCK then [] else PlanFrom(file, choose, offset + BLOCK, false, []);
      Regroup(ops, Chunks(delta), [Operation(hit.value, [])], rest);
    }
  }

  lemma Regroup<T>(a: seq<T>, b: seq<T>, c: seq<T>, d: seq<T>)
    ensures a + (b + c + d) == (a + b + c) + d
  {
  }

  /** What the client remembers while it slides. */
  ghost predicate Ready(file: seq<Byte>, offset: nat, rolling: bool, weak: Weak, outgoing: Byte) {
    && offset <= |file|
    && (rolling ==> SlidHere(file, offset) && weak == WeakOf(ReadAt(file, offset - 1)) && outgoing == file[offset - 1])
  }

  /** The checksum at `offset`, rolled on if the window was slid, else computed afresh. */
  method Checksum(file: seq<Byte>, offset: nat, block: seq<Byte>, rolling: bool, weak: Weak, outgoing: Byte)
    returns (w: Weak)
    requires Ready(file, offset, rolling, weak, outgoing) && block == ReadAt(file, offset)
    ensures w == WeakSeen(file, offset, rolling)
    ensures |block| == BLOCK ==> w == WeakOf(block)
  {
    if rolling {
      SlideAt(file, offset);
      w := RollingHash2(|block|, weak, outgoing, block[|block| - 1]);
    } else {
      w := RollingHash(block);
    }
  }

  /** The checksum at `offset`, and the block it leads to. */
  method Match(file: seq<Byte>, offset: nat, block: seq<Byte>, rolling: bool, weak: Weak, outgoing: Byte, table: Table,
               strong: seq<Byte> -> seq<Byte>)
    returns (w: Weak, hit: Option<nat>)
    requires Ready(file, offset, rolling, weak, outgoing) && block == ReadAt(file, offset)
    ensures hit == Choose(file, table, strong)(offset, rolling)
    ensures |block| == BLOCK ==> w == WeakOf(block)
  {
    w := Checksum(file, offset, block, rolling, weak, outgoing);
    hit := None;
    if Packed(w) in table {
      hit := Search(table[Packed(w)], strong(block));
    }
  }

  /** A slid window's last byte is the one that came in, or, at the end, one it had already. */
  lemma SlideAt(file: seq<Byte>, offset: nat)
    requires SlidHere(file, offset)
    ensures var block, window := ReadAt(file, offset), ReadAt(file, offset - 1);
            && 0 < |block| && (|block| < BLOCK ==> block[|block| - 1] == file[|file| - 1])
            && WeakSeen(file, offset, true) ==
               RollingHash2(|block|, WeakOf(window), file[offset - 1], block[|block| - 1])
  {
    var block, window := ReadAt(file, offset), ReadAt(file, offset - 1);
    if |block| == BLOCK {
      SlideIsFresh(window, block[BLOCK - 1]);
      assert window[1..] + [block[BLOCK - 1]] == block;
    }
  }

  // ----- the round trip -----

  /** No window of the new file has the strong hash of a different block of the old one. */
  ghost predicate NoCollision(cache: seq<Byte>, file: seq<Byte>, strong: seq<Byte> -> seq<Byte>) {
    forall i: nat, offset: nat :: i * BLOCK < |cache| && strong(ReadAt(file, offset)) == strong(BlockAt(cache, i)) ==>
      ReadAt(file, offset) == BlockAt(cache, i)
  }

  ghost predicate AllSignatures(sigs: seq<Signature>, cache: seq<Byte>, strong: seq<Byte> -> seq<Byte>) {
    forall i :: 0 <= i < |sigs| ==> IsSignature(sigs[i], cache, strong)
  }

  lemma {:induction false} BucketOf(sigs: seq<Signature>, w: int)
    ensures forall s :: s in Bucket(sigs, w) <==> s in sigs && s.weak == w
  {
    if sigs != [] {
      BucketOf(sigs[..|sigs| - 1], w);
      assert sigs == sigs[..|sigs| - 1] + [sigs[|sigs| - 1]];
    }
  }

  lemma {:induction false} FirstStrongIs(chain: seq<Signature>, strong: seq<Byte>)
    ensures match FirstStrong(chain, strong)
            case Some(index) => exists s :: s in chain && s.strong == strong && s.index == index
            case None => forall s :: s in chain ==> s.strong != strong
  {
    if chain != [] && chain[0].strong != strong {
      FirstStrongIs(chain[1..], strong);
      assert chain == [chain[0]] + chain[1..];
    }
  }

  /** A hit names a block of the old file with the content of the window. */
  lemma HitIsBlock(cache: seq<Byte>, file: seq<Byte>, strong: seq<Byte> -> seq<Byte>, sigs: seq<Signature>,
                   table: Table, offset: nat, weak: int)
    requires AllSignatures(sigs, cache, strong) && IsTable(table, sigs) && NoCollision(cache, file, strong)
    ensures var hit := Hit(table, weak, strong(ReadAt(file, offset)));
            hit.Some? ==> BlockAt(cache, hit.value) == ReadAt(file, offset)
  {
    var h := strong(ReadAt(file, offset));
    if weak in table {
      FirstStrongIs(table[weak], h);
      BucketOf(sigs, weak);
      if Hit(table, weak, h).Some? {
        var s :| s in table[weak] && s.strong == h && s.index == Hit(table, weak, h).value;
        assert IsSignature(s, cache, strong);
      }
    }
  }

  lemma {:induction false} ChunksRebuilt(cache: seq<Byte>, delta: seq<Byte>)
    ensures Rebuilt(cache, Chunks(delta)) == delta
    decreases |delta|
  {
    if delta != [] {
      var block := ReadAt(delta, 0);
      var rest := delta[|block|..];
      ChunksRebuilt(cache, rest);
      FirstRebuilt(cache, block, Chunks(rest));
      assert delta == block + rest;
    }
  }

  lemma FirstRebuilt(cache: seq<Byte>, block: seq<Byte>, rest: seq<Operation>)
    requires block != []
    ensures Rebuilt(cache, [Operation(0, block)] + rest) == block + Rebuilt(cache, rest)
  {
    RebuiltJoin(cache, [Operation(0, block)], rest);
    RebuiltOne(cache, Operation(0, block));
  }

  lemma RebuiltOne(cache: seq<Byte>, op: Operation)
    ensures Rebuilt(cache, [op]) == Piece(cache, op)
  {
    assert [op][..0] == [];
    assert Rebuilt(cache, [op]) == [] + Piece(cache, op);
  }

  lemma TokenRebuilds(cache: seq<Byte>, delta: seq<Byte>, index: nat, rest: seq<Operation>)
    ensures Rebuilt(cache, Chunks(delta) + [Operation(index, [])] + rest) ==
            delta + BlockAt(cache, index) + Rebuilt(cache, rest)
  {
    var token := Operation(index, []);
    ChunksRebuilt(cache, delta);
    RebuiltMore(cache, Chunks(delta), token);
    RebuiltJoin(cache, Chunks(delta) + [token], rest);
  }

  /** Every token names a block with the content of its window. */
  ghost predicate Faithful(cache: seq<Byte>, file: seq<Byte>, choose: Choice) {
    forall offset: nat, rolling: bool :: choose(offset, rolling).Some? ==>
      BlockAt(cache, choose(offset, rolling).value) == ReadAt(file, offset)
  }

  /** After a token the literal bytes before it and its block are rebuilt. */
  lemma AfterToken(cache: seq<Byte>, file: seq<Byte>, delta: seq<Byte>, offset: nat, index: nat, rest: seq<Operation>)
    requires offset <= |file| && BlockAt(cache, index) == ReadAt(file, offset)
    requires Rebuilt(cache, rest) == if |ReadAt(file, offset)| < BLOCK then [] else file[offset + BLOCK..]
    ensures Rebuilt(cache, Chunks(delta) + [Operation(index, [])] + rest) == delta + file[offset..]
  {
    TokenRebuilds(cache, delta, index, rest);
    assert ReadAt(file, offset) + Rebuilt(cache, rest) == file[offset..];
    Associative(delta, ReadAt(file, offset), Rebuilt(cache, rest));
  }

  lemma AtEnd(cache: seq<Byte>, file: seq<Byte>, delta: seq<Byte>, offset: nat)
    requires offset <= |file| && |ReadAt(file, offset)| < BLOCK
    ensures Rebuilt(cache, Chunks(delta + ReadAt(file, offset))) == delta + file[offset..]
  {
    ChunksRebuilt(cache, delta + ReadAt(file, offset));
    assert ReadAt(file, offset) == file[offset..];
  }

  lemma OneByte(file: seq<Byte>, delta: seq<Byte>, offset: nat)
    requires offset <= |file| && |ReadAt(file, offset)| == BLOCK
    ensures (delta + [ReadAt(file, offset)[0]]) + file[offset + 1..] == delta + file[offset..]
  {
    assert file[offset..] == [file[offset]] + file[offset + 1..];
  }

  /** Whatever the tokens, if they are faithful, what is sent from `offset` on rebuilds the
      pending literal bytes and the rest of the file. */
  lemma {:induction false} PlanRebuilds(cache: seq<Byte>, file: seq<Byte>, choose: Choice, offset: nat, rolling: bool,
                                        delta: seq<Byte>)
    requires Faithful(cache, file, choose) && offset <= |file|
    ensures Rebuilt(cache, PlanFrom(file, choose, offset, rolling, delta)) == delta + file[offset..]
    decreases |file| - offset
  {
    var hit := choose(offset, rolling);
    var short := |ReadAt(file, offset)| < BLOCK;
    if hit.Some? {
      var rest := if short then [] else PlanFrom(file, choose, offset + BLOCK, false, []);
      if !short {
        PlanRebuilds(cache, file, choose, offset + BLOCK, false, []);
        assert [] + file[offset + BLOCK..] == file[offset + BLOCK..];
      }
      AfterToken(cache, file, delta, offset, hit.value, rest);
    } else if short {
      AtEnd(cache, file, delta, offset);
    } else {
      PlanRebuilds(cache, file, choose, offset + 1, true, delta + [ReadAt(file, offset)[0]]);
      OneByte(file, delta, offset);
    }
  }

  /** End to end: the server ends up with the client's file. */
  method Transfer(cache: seq<Byte>, file: seq<Byte>, strong: seq<Byte> -> seq<Byte>) returns (dst: seq<Byte>)
    requires NoCollision(cache, file, strong)
    ensures dst == file
  {
    var sigs := Signatures(cache, strong);
    var table := LookUpTable(sigs);
    var ops := Sync(file, table, strong);
    dst := Apply(cache, ops);
    RoundTrip(cache, file, strong, sigs, table);
  }

  lemma RoundTrip(cache: seq<Byte>, file: seq<Byte>, strong: seq<Byte> -> seq<Byte>, sigs: seq<Signature>, table: Table)
    requires AllSignatures(sigs, cache, strong) && IsTable(table, sigs) && NoCollision(cache, file, strong)
    ensures Rebuilt(cache, Plan(file, table, strong)) == file
  {
    ChunksRebuilt(cache, file);
    ChooseFaithful(cache, file, strong, sigs, table);
    PlanRebuilds(cache, file, Choose(file, table, strong), 0, false, []);
    assert [] + file[0..] == file;
  }

  lemma ChooseFaithful(cache: seq<Byte>, file: seq<Byte>, strong: seq<Byte> -> seq<Byte>, sigs: seq<Signature>,
                       table: Table)
    requires AllSignatures(sigs, cache, strong) && IsTable(table, sigs) && NoCollision(cache, file, strong)
    ensures Faithful(cache, file, Choose(file, table, strong))
  {
    var choose := Choose(file, table, strong);
    forall offset: nat, rolling: bool | choose(offset, rolling).Some?
      ensures BlockAt(cache, choose(offset, rolling).value) == ReadAt(file, offset)
    {
      HitIsBlock(cache, file, strong, sigs, table, offset, Packed(WeakSeen(file, offset, rolling)));
    }
  }

  // ----- what is not sent -----

  /** The signatures of all blocks, in order. */
  ghost predicate Complete(sigs: seq<Signature>, cache: seq<Byte>, strong: seq<Byte> -> seq<Byte>) {
    && (forall i :: 0 <= i < |sigs| ==> sigs[i].index == i && IsSignature(sigs[i], cache, strong))
    && |sigs| * BLOCK >= |cache|
  }

  /** A window that is a block of the old file is recognised, unless it shrank while sliding. */
  lemma KnownBlockFound(cache: seq<Byte>, file: seq<Byte>, strong: seq<Byte> -> seq<Byte>, sigs: seq<Signature>,
                        table: Table, offset: nat, rolling: bool, i: nat)
    requires Complete(sigs, cache, strong) && IsTable(table, sigs)
    requires i < |sigs| && ReadAt(file, offset) == BlockAt(cache, i)
    requires rolling ==> SlidHere(file, offset) && |ReadAt(file, offset)| == BLOCK
    ensures Choose(file, table, strong)(offset, rolling).Some?
  {
    var s := sigs[i];
    assert IsSignature(s, cache, strong);
    BucketOf(sigs, s.weak);
    assert s in Bucket(sigs, s.weak);
    FirstStrongIs(table[s.weak], s.strong);
  }

  ghost predicate TokensOnly(ops: seq<Operation>) {
    forall i :: 0 <= i < |ops| ==> ops[i].data == []
  }

  /** Nothing is sent literally of a file that has not changed. */
  lemma {:induction false} UnchangedFrom(cache: seq<Byte>, strong: seq<Byte> -> seq<Byte>, sigs: seq<Signature>,
                                         table: Table, k: nat)
    requires Complete(sigs, cache, strong) && IsTable(table, sigs) && k * BLOCK <= |cache|
    ensures TokensOnly(PlanFrom(cache, Choose(cache, table, strong), k * BLOCK, false, []))
    decreases |cache| - k * BLOCK
  {
    var offset := k * BLOCK;
    var block := ReadAt(cache, offset);
    if |block| > 0 {
      KnownBlockFound(cache, cache, strong, sigs, table, offset, false, k);
    }
    if |block| == BLOCK {
      UnchangedFrom(cache, strong, sigs, table, k + 1);
      assert (k + 1) * BLOCK == offset + BLOCK;
    }
  }

  lemma UnchangedFile(cache: seq<Byte>, strong: seq<Byte> -> seq<Byte>, sigs: seq<Signature>, table: Table)
    requires Complete(sigs, cache, strong) && IsTable(table, sigs)
    ensures TokensOnly(Plan(cache, table, strong))
  {
    if table == map[] {
      if sigs != [] {
        BucketOf(sigs, sigs[0].weak);
      }
      assert cache == [];
    }
    UnchangedFrom(cache, strong, sigs, table, 0);
  }

  // ----- a window that shrank -----

  /** The old file has this block. */
  ghost predicate Known(cache: seq<Byte>, n: nat, block: seq<Byte>) {
    exists i: nat :: i < n && BlockAt(cache, i) == block
  }

  /** A slid window that meets the end of the file is one byte short. */
  lemma OneShort(file: seq<Byte>, offset: nat)
    requires SlidHere(file, offset) && |ReadAt(file, offset)| < BLOCK
    ensures var window := ReadAt(file, offset - 1);
            |window| == BLOCK && window[1..] == ReadAt(file, offset) && window[0] == file[offset - 1] &&
              window[BLOCK - 1] == file[|file| - 1]
  {
  }

  /** Which signatures a window meets: those with its strong hash under the checksum that was seen. */
  lemma HitWhen(sigs: seq<Signature>, table: Table, weak: int, strong: seq<Byte>)
    requires IsTable(table, sigs)
    ensures Hit(table, weak, strong).Some? <==> exists s :: s in sigs && s.weak == weak && s.strong == strong
  {
    BucketOf(sigs, weak);
    if weak in table {
      FirstStrongIs(table[weak], strong);
    }
  }

  /** Such a window is recognised just when the old file has it and its checksum is right by coincidence:
      the file ends with a zero, and the bytes of the window before it sum to a multiple of 65536. */
  lemma ShrunkFound(cache: seq<Byte>, file: seq<Byte>, strong: seq<Byte> -> seq<Byte>, sigs: seq<Signature>,
                    table: Table, offset: nat)
    requires Complete(sigs, cache, strong) && IsTable(table, sigs) && NoCollision(cache, file, strong)
    requires SlidHere(file, offset) && |ReadAt(file, offset)| < BLOCK
    ensures Choose(file, table, strong)(offset, true).Some? <==>
            Known(cache, |sigs|, ReadAt(file, offset)) && file[|file| - 1] == 0 &&
              Sum(ReadAt(file, offset - 1)) % MOD == 0
  {
    var block, window := ReadAt(file, offset), ReadAt(file, offset - 1);
    OneShort(file, offset);
    ShrunkWindow(window);
    var seen := WeakSeen(file, offset, true);
    AllSmall(block, |block| * file[offset - 1], WeakOf(window), file[offset - 1], file[|file| - 1]);
    PackedTells(seen, WeakOf(block));
    HitWhen(sigs, table, Packed(seen), strong(block));
    if exists s :: s in sigs && s.weak == Packed(seen) && s.strong == strong(block) {
      var s :| s in sigs && s.weak == Packed(seen) && s.strong == strong(block);
      assert IsSignature(s, cache, strong) && BlockAt(cache, s.index) == block;
    }
    if Known(cache, |sigs|, block) && seen == WeakOf(block) {
      var i: nat :| i < |sigs| && BlockAt(cache, i) == block;
      assert IsSignature(sigs[i], cache, strong) && sigs[i] in sigs;
    }
  }

  lemma {:induction false} SumOnes(s: seq<Byte>)
    requires forall i :: 0 <= i < |s| ==> s[i] == 1
    ensures Sum(s) == |s|
  {
    if s != [] {
      SumOnes(s[..|s| - 1]);
    }
  }

  /** A block of ones, of which the server has all but the first: all of it is sent, though the server has the
      rest. */
  lemma TailSentAnew(cache: seq<Byte>, file: seq<Byte>, strong: seq<Byte> -> seq<Byte>, sigs: seq<Signature>,
                     table: Table)
    requires |file| == BLOCK && (forall i :: 0 <= i < BLOCK ==> file[i] == 1) && cache == file[1..]
    requires Complete(sigs, cache, strong) && IsTable(table, sigs) && NoCollision(cache, file, strong)
    ensures Plan(file, table, strong) == Chunks(file) && Known(cache, |sigs|, ReadAt(file, 1))
  {
    var choose := Choose(file, table, strong);
    assert ReadAt(file, 0) == file && ReadAt(file, 1) == cache == BlockAt(cache, 0);
    assert choose(1, true) == None by {
      SumOnes(file);
      ShrunkFound(cache, file, strong, sigs, table, 1);
    }
    assert choose(0, false) == None by { ChooseFaithful(cache, file, strong, sigs, table); }
    AllLiteral(file, choose);
  }

  /** Nothing recognised at the start nor one byte on. */
  lemma AllLiteral(file: seq<Byte>, choose: Choice)
    requires |file| == BLOCK && choose(0, false) == None && choose(1, true) == None
    ensures PlanFrom(file, choose, 0, false, []) == Chunks(file)
  {
    assert ReadAt(file, 0) == file && ReadAt(file, 1) == file[1..];
    assert PlanFrom(file, choose, 0, false, []) == PlanFrom(file, choose, 1, true, [] + [file[0]]);
    assert [] + [file[0]] + file[1..] == file;
  }
}
