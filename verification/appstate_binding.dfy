/** What the MACs of a patch bind: their inputs can be taken apart in one way only, so that two accepted patches with
    the same patch MAC are the same patch, or two of the inputs that were hashed for them collide. */
module AppStateBinding {
  import opened Bytes
  import opened LTHash
  import opened AppState
  import opened AppStateTheorems
  import opened AppStateReport

  const TWO_64 := 0x1_0000_0000_0000_0000

  lemma TwoTo64()
    ensures Power256(8) == TWO_64
  {
    assert Power256(1) == 0x100 && Power256(2) == 0x1_0000 && Power256(4) == 0x1_0000 * 0x1_0000 by {
      assert Power256(3) == 0x100_0000;
    }
    assert Power256(5) == 0x100 * Power256(4) && Power256(6) == 0x100 * Power256(5);
    assert Power256(7) == 0x100 * Power256(6);
  }

  lemma SameNumber(v: nat, w: nat)
    requires v < TWO_64 && w < TWO_64 && BigEndian(v, 8) == BigEndian(w, 8)
    ensures v == w
  {
    hide BigEndian, Power256;
    TwoTo64();
    BigEndianRoundTrip(v, 8);
    BigEndianRoundTrip(w, 8);
  }

  lemma SplitAtEnd(a: Bytes, b: Bytes, x: Bytes, y: Bytes)
    requires a + x == b + y && |x| == |y|
    ensures a == b && x == y
  {
    assert |a| == |b|;
    assert a == (a + x)[..|a|] && b == (b + y)[..|b|] && x == (a + x)[|a|..] && y == (b + y)[|b|..];
  }

  lemma SplitAtStart(a: Bytes, b: Bytes, x: Bytes, y: Bytes)
    requires a + x == b + y && |a| == |b|
    ensures a == b && x == y
  {
    assert a == (a + x)[..|a|] && b == (b + y)[..|b|] && x == (a + x)[|a|..] && y == (b + y)[|b|..];
  }

  // ----- The content of a mutation -----

  function Content(m: Mutation): Bytes { m.record.blob[..|m.record.blob| - 32] }

  function OpByte(op: Op): byte { if op.SET? then 1 else 2 }

  /** What the value MAC of a mutation is taken over. */
  function ContentInput(m: Mutation): Bytes {
    [OpByte(m.op)] + m.record.keyID + Content(m) + BigEndian(|m.record.keyID| + 1, 8)
  }

  /** It can be taken apart in one way only: the length of the key ID is in its last eight bytes. */
  lemma ContentInputBinds(m: Mutation, n: Mutation)
    requires ContentInput(m) == ContentInput(n)
    requires |m.record.keyID| + 1 < TWO_64 && |n.record.keyID| + 1 < TWO_64
    ensures m.op == n.op && m.record.keyID == n.record.keyID && Content(m) == Content(n)
  {
    hide BigEndian, Content, OpByte;
    var k, l := m.record.keyID, n.record.keyID;
    SplitAtEnd([OpByte(m.op)] + k + Content(m), [OpByte(n.op)] + l + Content(n), BigEndian(|k| + 1, 8),
               BigEndian(|l| + 1, 8));
    SameNumber(|k| + 1, |l| + 1);
    SplitAtStart([OpByte(m.op)] + k, [OpByte(n.op)] + l, Content(m), Content(n));
    SplitAtStart([OpByte(m.op)], [OpByte(n.op)], k, l);
    OpBytes(m.op, n.op);
  }

  lemma OpBytes(a: Op, b: Op)
    requires [OpByte(a)] == [OpByte(b)]
    ensures a == b
  {
    assert [OpByte(a)][0] == [OpByte(b)][0];
  }

  /** Two different inputs, under keys of their own, that have the same value MAC. */
  predicate ContentCollision(env: Env, m: Mutation, n: Mutation)
    requires m.record.keyID in env.keys && n.record.keyID in env.keys
  {
    var k, l := env.keys[m.record.keyID].valueMAC, env.keys[n.record.keyID].valueMAC;
    (k, ContentInput(m)) != (l, ContentInput(n))
    && env.hmac512(k, ContentInput(m))[..32] == env.hmac512(l, ContentInput(n))[..32]
  }

  /** Two authentic mutations with the same value MAC are the same mutation, unless the inputs of their MACs collide. */
  lemma ValueMACBinds(env: Env, m: Mutation, n: Mutation)
    requires Acceptable(env, m, true) && Acceptable(env, n, true)
    requires ValueMAC(m.record.blob) == ValueMAC(n.record.blob)
    requires |m.record.keyID| + 1 < TWO_64 && |n.record.keyID| + 1 < TWO_64
    ensures m == n || ContentCollision(env, m, n)
  {
    hide BigEndian;
    InputOf(env, m);
    InputOf(env, n);
    if !ContentCollision(env, m, n) {
      ContentInputBinds(m, n);
      assert m.record.blob == Content(m) + ValueMAC(m.record.blob);
      assert n.record.blob == Content(n) + ValueMAC(n.record.blob);
    }
  }

  lemma InputOf(env: Env, m: Mutation)
    requires Acceptable(env, m, true)
    ensures m.record.keyID in env.keys
    ensures env.hmac512(env.keys[m.record.keyID].valueMAC, ContentInput(m))[..32] == ValueMAC(m.record.blob)
    ensures Inside(env, m).Some?
    ensures env.hmac256(env.keys[m.record.keyID].index, Inside(env, m).value.index) == m.record.indexMAC
  {
    hide BigEndian;
  }

  // ----- The patch -----

  function PatchInput(env: Env, p: Patch): Bytes {
    p.snapshotMAC + AllValueMACs(p.mutations) + BigEndian(p.version, 8) + env.name
  }

  lemma {:induction false} ValueMACsLength(ms: seq<Mutation>)
    ensures |AllValueMACs(ms)| == 32 * |ms|
  {
    if ms != [] {
      ValueMACsLength(ms[..|ms| - 1]);
    }
  }

  lemma {:induction false} ValueMACsBind(ms: seq<Mutation>, ns: seq<Mutation>)
    requires AllValueMACs(ms) == AllValueMACs(ns)
    ensures |ms| == |ns| && forall i :: 0 <= i < |ms| ==> ValueMAC(ms[i].record.blob) == ValueMAC(ns[i].record.blob)
  {
    ValueMACsLength(ms);
    ValueMACsLength(ns);
    if ms != [] {
      var n := |ms| - 1;
      SplitAtEnd(AllValueMACs(ms[..n]), AllValueMACs(ns[..n]),
                 ValueMAC(ms[n].record.blob), ValueMAC(ns[n].record.blob));
      ValueMACsBind(ms[..n], ns[..n]);
      assert forall i :: 0 <= i < n ==> ms[..n][i] == ms[i] && ns[..n][i] == ns[i];
    }
  }

  lemma PatchInputBinds(env: Env, p: Patch, q: Patch)
    requires PatchInput(env, p) == PatchInput(env, q) && |p.snapshotMAC| == |q.snapshotMAC|
    requires p.version < TWO_64 && q.version < TWO_64
    ensures p.snapshotMAC == q.snapshotMAC && p.version == q.version
    ensures AllValueMACs(p.mutations) == AllValueMACs(q.mutations)
  {
    hide BigEndian, AllValueMACs;
    var a, b := AllValueMACs(p.mutations), AllValueMACs(q.mutations);
    var v, w := BigEndian(p.version, 8), BigEndian(q.version, 8);
    SplitAtEnd(p.snapshotMAC + a + v, q.snapshotMAC + b + w, env.name, env.name);
    SplitAtEnd(p.snapshotMAC + a, q.snapshotMAC + b, v, w);
    SplitAtStart(p.snapshotMAC, q.snapshotMAC, a, b);
    SameNumber(p.version, q.version);
  }

  predicate PatchCollision(env: Env, p: Patch, q: Patch)
    requires p.keyID in env.keys && q.keyID in env.keys
  {
    var k, l := env.keys[p.keyID].patchMAC, env.keys[q.keyID].patchMAC;
    (k, PatchInput(env, p)) != (l, PatchInput(env, q))
    && env.hmac256(k, PatchInput(env, p)) == env.hmac256(l, PatchInput(env, q))
  }

  predicate CollisionAt(env: Env, ms: seq<Mutation>, ns: seq<Mutation>, i: int) {
    && 0 <= i < |ms| && i < |ns|
    && ms[i].record.keyID in env.keys && ns[i].record.keyID in env.keys && ContentCollision(env, ms[i], ns[i])
  }

  /** Numbers and lengths that 64 bits can hold. */
  predicate Fits64(p: Patch) {
    p.version < TWO_64 && forall i :: 0 <= i < |p.mutations| ==> |p.mutations[i].record.keyID| + 1 < TWO_64
  }

  /** Nothing about an accepted patch can be changed under its patch MAC, not its version, an operation, an index, a
      value, their number or their order: another accepted patch with that MAC is the same, except perhaps for the
      name of the key, or two of the inputs that were hashed collide. */
  lemma PatchMACBinds(env: Env, run: Run, p: Patch, run': Run, q: Patch)
    requires Matches(env.expand, run) && Matches(env.expand, run') && Fits64(p) && Fits64(q)
    requires ApplyPatch(env, run, p, true).err.None? && ApplyPatch(env, run', q, true).err.None?
    requires p.patchMAC == q.patchMAC
    ensures p.keyID in env.keys && q.keyID in env.keys
    ensures
      || p.(keyID := q.keyID) == q
      || PatchCollision(env, p, q)
      || exists i :: CollisionAt(env, p.mutations, q.mutations, i)
  {
    hide ApplyPatch, Matches, PatchInput, AllValueMACs, ContentCollision, Acceptable, BigEndian, Fold, Total, Live,
      RepeatsSet, Collides, DeleteRows, Outputs;
    AcceptedExactly(env, run, p);
    AcceptedExactly(env, run', q);
    SealedInput(env, Total(env.expand, Fold(Live(run.db.rows), p.mutations, |p.mutations|)), p);
    SealedInput(env, Total(env.expand, Fold(Live(run'.db.rows), q.mutations, |q.mutations|)), q);
    if !PatchCollision(env, p, q) {
      PatchInputBinds(env, p, q);
      ValueMACsBind(p.mutations, q.mutations);
      if p.mutations != q.mutations {
        var i :| 0 <= i < |p.mutations| && p.mutations[i] != q.mutations[i];
        ValueMACBinds(env, p.mutations[i], q.mutations[i]);
        InputOf(env, p.mutations[i]);
        InputOf(env, q.mutations[i]);
        assert CollisionAt(env, p.mutations, q.mutations, i);
      }
    }
  }

  lemma SealedInput(env: Env, hash: Hash, p: Patch)
    requires Sealed(env, hash, p)
    ensures p.keyID in env.keys && |p.snapshotMAC| == 32
    ensures env.hmac256(env.keys[p.keyID].patchMAC, PatchInput(env, p)) == p.patchMAC
  {
    hide BigEndian, AllValueMACs;
  }
}
