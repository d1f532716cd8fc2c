/** When a trace is complete: the iterator chain of src/trace.rs:459-465 against
    its plain meaning, over tables laid out hop by hop. */
module StopRule {
  import opened Prelude
  import opened Trace

  /** `probes` lists `count` probes for each TTL from `firstHop` to `lastHop`. */
  ghost predicate IsTable(probes: seq<Probe>, firstHop: nat, lastHop: nat, count: nat)
    decreases lastHop + 1 - firstHop
  {
    if firstHop > lastHop then probes == []
    else
      && count <= |probes|
      && (forall p <- probes[..count] :: p.ttl == firstHop)
      && IsTable(probes[count..], firstHop + 1, lastHop, count)
  }

  /** The hop with this TTL has an answer. */
  predicate AnsweredAt(probes: seq<Probe>, ttl: int) {
    exists p <- probes :: p.ttl == ttl && p.result.Some?
  }

  /** The target answered at this TTL. */
  predicate ReachedAt(probes: seq<Probe>, ttl: int) {
    exists p <- probes :: p.ttl == ttl && p.result.Some? && p.result.value.kind.Destination?
  }

  /** Some hop was answered by the target, and so was every hop up to it by someone. */
  ghost predicate TargetFound(probes: seq<Probe>, firstHop: int, lastHop: int) {
    exists h :: firstHop <= h <= lastHop && ReachedAt(probes, h)
                && forall g :: firstHop <= g <= h ==> AnsweredAt(probes, g)
  }

  lemma {:induction false} SetupIsTable(firstHop: nat, lastHop: u8, count: u16)
    ensures IsTable(Table(firstHop, lastHop, count), firstHop, lastHop, count)
    decreases lastHop + 1 - firstHop
  {
    if firstHop <= lastHop {
      SetupIsTable(firstHop + 1, lastHop, count);
      assert Table(firstHop, lastHop, count)[count..] == Table(firstHop + 1, lastHop, count);
    }
  }

  lemma MulMonotone(a: int, b: int, c: nat)
    requires a <= b
    ensures a * c <= b * c
  {
  }

  lemma StrictMultiples(a: int, b: int, c: nat)
    ensures a < b ==> a * c + c <= b * c
  {
    if a < b {
      MulMonotone(a + 1, b, c);
      assert (a + 1) * c == a * c + c;
    }
  }

  lemma DivUnique(a: int, b: int, q: int)
    requires b > 0 && q * b <= a < q * b + b
    ensures a / b == q
  {
    var d := a / b;
    assert a == d * b + a % b;
    StrictMultiples(d, q, b);
    StrictMultiples(q, d, b);
  }

  lemma DivStep(a: nat, b: nat)
    requires a >= b > 0
    ensures a / b == (a - b) / b + 1
  {
    var q := (a - b) / b;
    assert a - b == q * b + (a - b) % b;
    assert (q + 1) * b == q * b + b;
    DivUnique(a, b, q + 1);
  }

  /** The TTL of a probe is the first hop plus its index over the count. */
  lemma {:induction false} TableTtl(probes: seq<Probe>, firstHop: nat, lastHop: nat, count: nat, i: nat)
    requires IsTable(probes, firstHop, lastHop, count) && i < |probes|
    ensures count > 0 && probes[i].ttl == firstHop + i / count
    decreases lastHop + 1 - firstHop
  {
    if count == 0 {
      EmptyTable(probes, firstHop, lastHop);
    } else if i < count {
      assert probes[i] == probes[..count][i];
      assert probes[i] in probes[..count];
    } else {
      TableTtl(probes[count..], firstHop + 1, lastHop, count, i - count);
      DivStep(i, count);
    }
  }

  lemma {:induction false} EmptyTable(probes: seq<Probe>, firstHop: nat, lastHop: nat)
    requires IsTable(probes, firstHop, lastHop, 0)
    ensures probes == []
    decreases lastHop + 1 - firstHop
  {
    if firstHop <= lastHop {
      EmptyTable(probes[0..], firstHop + 1, lastHop);
      assert probes[0..] == probes;
    }
  }

  lemma {:induction false} RunOfEqualTtl(probes: seq<Probe>, n: nat, ttl: int)
    requires 1 <= n <= |probes|
    requires forall i :: 0 <= i < n ==> probes[i].ttl == ttl
    requires n < |probes| ==> probes[n].ttl != ttl
    ensures RunLength(probes) == n
  {
    if n > 1 {
      RunOfEqualTtl(probes[1..], n - 1, ttl);
    }
  }

  /** The first chunk of a table is the block of its first TTL. */
  lemma FirstChunk(probes: seq<Probe>, firstHop: nat, lastHop: nat, count: nat)
    requires IsTable(probes, firstHop, lastHop, count) && firstHop <= lastHop && count > 0
    ensures Hops(probes) == [probes[..count]] + Hops(probes[count..])
  {
    forall i | 0 <= i < count ensures probes[i].ttl == firstHop {
      assert probes[i] == probes[..count][i];
    }
    if count < |probes| {
      TableTtl(probes, firstHop, lastHop, count, count);
      assert count / count == 1;
    }
    RunOfEqualTtl(probes, count, firstHop);
  }

  /** `block` is the slice of `count` probes that starts at `at`. */
  predicate IsBlock(block: seq<Probe>, probes: seq<Probe>, at: int, count: nat) {
    0 <= at && at + count <= |probes| && block == probes[at..at + count]
  }

  /** `hops` cuts `probes` into blocks of `count`, in order and with nothing left over. */
  ghost predicate AreBlocks(hops: seq<seq<Probe>>, probes: seq<Probe>, count: nat) {
    && |probes| == |hops| * count
    && forall h :: 0 <= h < |hops| ==> IsBlock(hops[h], probes, h * count, count)
  }

  lemma NextMultiple(a: int, c: nat)
    ensures (a + 1) * c == a * c + c
  {
  }

  lemma BlocksStep(hops: seq<seq<Probe>>, probes: seq<Probe>, count: nat)
    requires count <= |probes| && AreBlocks(hops, probes[count..], count)
    ensures AreBlocks([probes[..count]] + hops, probes, count)
  {
    var all := [probes[..count]] + hops;
    NextMultiple(|hops|, count);
    forall h | 0 <= h < |all| ensures IsBlock(all[h], probes, h * count, count) {
      if h > 0 {
        NextMultiple(h - 1, count);
        assert IsBlock(hops[h - 1], probes[count..], (h - 1) * count, count);
      }
    }
  }

  /** Chunking a table yields exactly one block per TTL, in order, and each block
      is the slice of the table it stands for. */
  lemma {:induction false} ChunksAreHops(probes: seq<Probe>, firstHop: nat, lastHop: nat, count: nat)
    requires IsTable(probes, firstHop, lastHop, count) && count > 0
    ensures |Hops(probes)| == if firstHop <= lastHop then lastHop - firstHop + 1 else 0
    ensures AreBlocks(Hops(probes), probes, count)
    ensures forall h :: 0 <= h < |Hops(probes)| ==> |Hops(probes)[h]| == count
    ensures forall h, k :: 0 <= h < |Hops(probes)| && 0 <= k < count ==> Hops(probes)[h][k].ttl == firstHop + h
    decreases lastHop + 1 - firstHop
  {
    if firstHop <= lastHop {
      FirstChunk(probes, firstHop, lastHop, count);
      ChunksAreHops(probes[count..], firstHop + 1, lastHop, count);
      assert forall k :: 0 <= k < count ==> probes[..count][k] in probes[..count];
      BlocksStep(Hops(probes[count..]), probes, count);
      hide AreBlocks;
    }
  }

  /** A table beyond its first block holds only later TTLs. */
  lemma LaterTtl(probes: seq<Probe>, firstHop: nat, lastHop: nat, count: nat, p: Probe)
    requires IsTable(probes, firstHop, lastHop, count) && p in probes
    ensures firstHop <= p.ttl <= lastHop
    decreases lastHop + 1 - firstHop
  {
    if firstHop <= lastHop {
      assert probes == probes[..count] + probes[count..];
      if p !in probes[..count] {
        LaterTtl(probes[count..], firstHop + 1, lastHop, count, p);
      }
    }
  }

  /** Questions about one TTL are settled in its own block. */
  lemma BlockSettles(probes: seq<Probe>, firstHop: nat, lastHop: nat, count: nat, ttl: int)
    requires IsTable(probes, firstHop, lastHop, count) && firstHop <= lastHop
    ensures AnsweredAt(probes, firstHop) == Answered(probes[..count])
    ensures ReachedAt(probes, firstHop) == Reached(probes[..count])
    ensures ttl > firstHop ==> AnsweredAt(probes, ttl) == AnsweredAt(probes[count..], ttl)
    ensures ttl > firstHop ==> ReachedAt(probes, ttl) == ReachedAt(probes[count..], ttl)
  {
    assert probes == probes[..count] + probes[count..];
    forall p <- probes[count..] ensures p.ttl > firstHop {
      LaterTtl(probes[count..], firstHop + 1, lastHop, count, p);
    }
  }

  lemma ReachedAppend(a: seq<Probe>, b: seq<Probe>)
    ensures Reached(a + b) == (Reached(a) || Reached(b))
  {
    if Reached(a) {
      var p :| p in a && p.result.Some? && p.result.value.kind.TerminatesTrace();
      assert p in a + b;
    }
    if Reached(b) {
      var p :| p in b && p.result.Some? && p.result.value.kind.TerminatesTrace();
      assert p in a + b;
    }
  }

  /** Looking for the target from the first hop on, one hop at a time. */
  lemma TargetFoundUnfolds(probes: seq<Probe>, firstHop: nat, lastHop: nat, count: nat)
    requires IsTable(probes, firstHop, lastHop, count) && firstHop <= lastHop
    ensures TargetFound(probes, firstHop, lastHop)
            <==> AnsweredAt(probes, firstHop)
                 && (ReachedAt(probes, firstHop) || TargetFound(probes[count..], firstHop + 1, lastHop))
  {
    forall t ensures t > firstHop ==> AnsweredAt(probes, t) == AnsweredAt(probes[count..], t)
                                      && ReachedAt(probes, t) == ReachedAt(probes[count..], t)
    {
      BlockSettles(probes, firstHop, lastHop, count, t);
    }
    if TargetFound(probes, firstHop, lastHop) {
      var h :| firstHop <= h <= lastHop && ReachedAt(probes, h)
               && forall g :: firstHop <= g <= h ==> AnsweredAt(probes, g);
      assert AnsweredAt(probes, firstHop);
      if h > firstHop {
        assert ReachedAt(probes[count..], h);
      }
    }
    if AnsweredAt(probes, firstHop) && ReachedAt(probes, firstHop) {
      assert TargetFound(probes, firstHop, lastHop);
    } else if AnsweredAt(probes, firstHop) && TargetFound(probes[count..], firstHop + 1, lastHop) {
      var h :| firstHop + 1 <= h <= lastHop && ReachedAt(probes[count..], h)
               && forall g :: firstHop + 1 <= g <= h ==> AnsweredAt(probes[count..], g);
      assert ReachedAt(probes, h);
    }
  }

  /** The stop condition means what it says: the chunked, cut and flattened scan
      finds a Destination exactly when the target was found behind answered hops. */
  lemma {:induction false} StopMeansTargetFound(probes: seq<Probe>, firstHop: nat, lastHop: nat, count: nat)
    requires IsTable(probes, firstHop, lastHop, count)
    ensures ReachedInOrder(probes) <==> TargetFound(probes, firstHop, lastHop)
    decreases lastHop + 1 - firstHop
  {
    if count == 0 {
      EmptyTable(probes, firstHop, lastHop);
    } else if firstHop <= lastHop {
      var block, rest := probes[..count], probes[count..];
      FirstChunk(probes, firstHop, lastHop, count);
      BlockSettles(probes, firstHop, lastHop, count, firstHop);
      TargetFoundUnfolds(probes, firstHop, lastHop, count);
      StopMeansTargetFound(rest, firstHop + 1, lastHop, count);
      hide TargetFound;
      hide RunLength;
      hide IsTable;
      hide AnsweredAt;
      hide ReachedAt;
      assert Hops(probes)[1..] == Hops(rest);
      ReachedAppend(block, Flatten(TakeAnswered(Hops(rest))));
      if Answered(block) {
        assert TakeAnswered(Hops(probes)) == [block] + TakeAnswered(Hops(rest));
        assert ([block] + TakeAnswered(Hops(rest)))[1..] == TakeAnswered(Hops(rest));
      }
    }
  }

  /** `q` is `p` with possibly more answers: TTLs stay, answers keep their meaning. */
  ghost predicate Grows(p: seq<Probe>, q: seq<Probe>) {
    && |p| == |q|
    && forall i :: 0 <= i < |p| ==>
         && q[i].ttl == p[i].ttl
         && (p[i].result.Some? ==> q[i].result.Some? && q[i].result.value.kind == p[i].result.value.kind)
  }

  lemma {:induction false} GrowsKeepsTable(p: seq<Probe>, q: seq<Probe>, firstHop: nat, lastHop: nat, count: nat)
    requires Grows(p, q) && IsTable(p, firstHop, lastHop, count)
    ensures IsTable(q, firstHop, lastHop, count)
    decreases lastHop + 1 - firstHop
  {
    if firstHop <= lastHop {
      GrowsKeepsTable(p[count..], q[count..], firstHop + 1, lastHop, count);
      forall x | x in q[..count] ensures x.ttl == firstHop {
        var i :| 0 <= i < count && q[i] == x;
        assert p[i] in p[..count];
      }
    }
  }

  /** More answers never undo the stop condition. */
  lemma StopIsMonotone(p: seq<Probe>, q: seq<Probe>, firstHop: nat, lastHop: nat, count: nat)
    requires Grows(p, q) && IsTable(p, firstHop, lastHop, count) && ReachedInOrder(p)
    ensures ReachedInOrder(q)
  {
    GrowsKeepsTable(p, q, firstHop, lastHop, count);
    StopMeansTargetFound(p, firstHop, lastHop, count);
    StopMeansTargetFound(q, firstHop, lastHop, count);
    forall t ensures (AnsweredAt(p, t) ==> AnsweredAt(q, t)) && (ReachedAt(p, t) ==> ReachedAt(q, t)) {
      if AnsweredAt(p, t) {
        var i :| 0 <= i < |p| && p[i].ttl == t && p[i].result.Some?;
        assert q[i] in q;
      }
      if ReachedAt(p, t) {
        var i :| 0 <= i < |p| && p[i].ttl == t && p[i].result.Some? && p[i].result.value.kind.Destination?;
        assert q[i] in q;
      }
    }
    var h :| firstHop <= h <= lastHop && ReachedAt(p, h)
             && forall g :: firstHop <= g <= h ==> AnsweredAt(p, g);
    assert ReachedAt(q, h);
    assert forall g :: firstHop <= g <= h ==> AnsweredAt(q, g);
  }
}
