/** The history of Merkle tree roots that spends may refer to, over any chain of blocks. */
module PastRoots {
  import opened FixedPoint
  import opened TimeKeys
  import opened TimeFilter

  /** The time of a block, the root after it, and the retention period in force. */
  datatype Block<T> = Block(tblock: U64, root: T, retention: Duration) {
    function Cutoff(): U64 { Minus(tblock, retention) }
  }

  function PostBlockUpdate<T>(m: TimeMap<T>, b: Block<T>): TimeMap<T>
    requires Valid(m)
  {
    InsertKeeps(m, b.tblock, b.root);
    Filter(TimeFilter.Insert(m, b.tblock, b.root), b.Cutoff())
  }

  ghost function History<T>(blocks: seq<Block<T>>): (m: TimeMap<T>)
    ensures Valid(m)
  {
    if blocks == [] then New() else
    var m, b := History(blocks[..|blocks| - 1]), blocks[|blocks| - 1];
    InsertKeeps(m, b.tblock, b.root);
    FilterKeeps(TimeFilter.Insert(m, b.tblock, b.root), b.Cutoff());
    PostBlockUpdate(m, b)
  }

  /** The i-th block is the last one of its time. */
  ghost predicate LastOfTime<T>(blocks: seq<Block<T>>, i: nat)
    requires i < |blocks|
  {
    forall j :: i < j < |blocks| ==> blocks[j].tblock != blocks[i].tblock
  }

  /** Neither it nor a later block cut its time off. */
  ghost predicate Retained<T>(blocks: seq<Block<T>>, i: nat)
    requires i < |blocks|
  {
    forall j :: i <= j < |blocks| ==> blocks[j].Cutoff() <= blocks[i].tblock
  }

  ghost predicate Kept<T>(blocks: seq<Block<T>>, i: nat)
    requires i < |blocks|
  {
    LastOfTime(blocks, i) && Retained(blocks, i)
  }

  lemma {:induction false} NoExcess<T>(blocks: seq<Block<T>>, x: T)
    ensures Excess(History(blocks), x) == 0
  {
    if blocks != [] {
      var before, b := blocks[..|blocks| - 1], blocks[|blocks| - 1];
      var m := History(before);
      NoExcess(before, x);
      InsertKeeps(m, b.tblock, b.root);
      InsertCounts(m, b.tblock, b.root, x);
      FilterCounts(TimeFilter.Insert(m, b.tblock, b.root), b.Cutoff(), x);
    }
  }

  /** Some kept block of that time left the root. */
  ghost predicate HeldBy<T>(blocks: seq<Block<T>>, t: U64, x: T) {
    exists i :: 0 <= i < |blocks| && Kept(blocks, i) && blocks[i].tblock == t && blocks[i].root == x
  }

  lemma StepHolds<T>(m: TimeMap<T>, b: Block<T>, t: U64, x: T)
    requires Valid(m)
    ensures Valid(PostBlockUpdate(m, b))
    ensures x in ItemsAt(PostBlockUpdate(m, b), t) <==>
            b.Cutoff() <= t && if t == b.tblock then x == b.root else x in ItemsAt(m, t)
  {
    InsertKeeps(m, b.tblock, b.root);
    FilterKeeps(TimeFilter.Insert(m, b.tblock, b.root), b.Cutoff());
  }

  lemma KeptStep<T>(blocks: seq<Block<T>>, i: nat)
    requires i < |blocks| - 1
    ensures var k := |blocks| - 1;
            Kept(blocks, i) <==>
            && Kept(blocks[..k], i)
            && blocks[i].tblock != blocks[k].tblock && blocks[k].Cutoff() <= blocks[i].tblock
  {
    var k := |blocks| - 1;
    assert forall j :: 0 <= j < k ==> blocks[..k][j] == blocks[j];
    assert LastOfTime(blocks, i) <==> LastOfTime(blocks[..k], i) && blocks[i].tblock != blocks[k].tblock;
    assert Retained(blocks, i) <==> Retained(blocks[..k], i) && blocks[k].Cutoff() <= blocks[i].tblock;
  }

  lemma HeldStep<T>(blocks: seq<Block<T>>, t: U64, x: T)
    requires blocks != []
    ensures var k := |blocks| - 1;
            HeldBy(blocks, t, x) <==>
            blocks[k].Cutoff() <= t && if t == blocks[k].tblock then x == blocks[k].root else HeldBy(blocks[..k], t, x)
  {
    var k := |blocks| - 1;
    var before := blocks[..k];
    if HeldBy(blocks, t, x) {
      var i :| 0 <= i < |blocks| && Kept(blocks, i) && blocks[i].tblock == t && blocks[i].root == x;
      if i < k {
        KeptStep(blocks, i);
        assert before[i] == blocks[i];
      }
    }
    if blocks[k].Cutoff() <= t {
      if t == blocks[k].tblock {
        assert Kept(blocks, k);
      } else if HeldBy(before, t, x) {
        var i :| 0 <= i < k && Kept(before, i) && before[i].tblock == t && before[i].root == x;
        KeptStep(blocks, i);
        assert blocks[i] == before[i];
      }
    }
  }

  lemma {:induction false} HistoryHolds<T>(blocks: seq<Block<T>>, t: U64, x: T)
    ensures x in ItemsAt(History(blocks), t) <==> HeldBy(blocks, t, x)
  {
    if blocks != [] {
      var k := |blocks| - 1;
      HistoryHolds(blocks[..k], t, x);
      StepHolds(History(blocks[..k]), blocks[k], t, x);
      HeldStep(blocks, t, x);
    }
  }

  /** After any chain of blocks at all, a spend may refer to a root exactly if a block left it
      that was the last of its time, and no block since cut that time off. */
  lemma RootsKnown<T>(blocks: seq<Block<T>>, x: T)
    ensures Contains(History(blocks), x) <==>
            exists i :: 0 <= i < |blocks| && Kept(blocks, i) && blocks[i].root == x
  {
    var m := History(blocks);
    NoExcess(blocks, x);
    ContainedIsHeld(m, x);
    if Held(m, x) {
      var t: U64 :| x in ItemsAt(m, t);
      HistoryHolds(blocks, t, x);
    }
    if i :| 0 <= i < |blocks| && Kept(blocks, i) && blocks[i].root == x {
      assert HeldBy(blocks, blocks[i].tblock, x);
      HistoryHolds(blocks, blocks[i].tblock, x);
    }
  }

  lemma MinusMono(s: U64, t: U64, d: Duration)
    requires s <= t
    ensures Minus(s, d) <= Minus(t, d)
  {}

  /** With one retention period and times that do not run backwards, the last block decides. */
  lemma LastDecides<T>(blocks: seq<Block<T>>, i: nat)
    requires forall j, k :: 0 <= j <= k < |blocks| ==> blocks[j].tblock <= blocks[k].tblock
    requires forall j, k :: 0 <= j <= k < |blocks| ==> blocks[j].retention == blocks[k].retention
    requires i < |blocks|
    ensures Retained(blocks, i) <==> blocks[|blocks| - 1].Cutoff() <= blocks[i].tblock
  {
    var k := |blocks| - 1;
    forall j | i <= j < |blocks| ensures blocks[j].Cutoff() <= blocks[k].Cutoff() {
      MinusMono(blocks[j].tblock, blocks[k].tblock, blocks[k].retention);
    }
  }

  /** A block cuts off the times more than its retention period before it. */
  lemma CutoffExactly<T>(b: Block<T>, t: U64)
    requires b.retention < U64_END
    ensures b.Cutoff() <= t <==> b.tblock - t <= b.retention || t == U64_END - 1
  {
    PlusIsExact(b.tblock, b.retention);
  }

  /** One retention period, and times that do not run backwards. */
  ghost predicate Steady<T>(blocks: seq<Block<T>>, retention: Duration) {
    && (forall j :: 0 <= j < |blocks| ==> blocks[j].retention == retention)
    && (forall j, k :: 0 <= j <= k < |blocks| ==> blocks[j].tblock <= blocks[k].tblock)
  }

  ghost predicate Recent<T>(blocks: seq<Block<T>>, i: nat, retention: Duration)
    requires i < |blocks|
  {
    blocks[|blocks| - 1].tblock - blocks[i].tblock <= retention
  }

  lemma RetainedIsRecent<T>(blocks: seq<Block<T>>, i: nat, retention: Duration)
    requires Steady(blocks, retention) && 0 <= retention < U64_END && i < |blocks|
    ensures Retained(blocks, i) <==> Recent(blocks, i, retention)
  {
    LastDecides(blocks, i);
    CutoffExactly(blocks[|blocks| - 1], blocks[i].tblock);
  }

  /** Then a spend may refer to a root exactly if a block left it that was the last of its time and is
      not older than the retention period. */
  lemma RecentRootsKnown<T>(blocks: seq<Block<T>>, retention: Duration, x: T)
    requires Steady(blocks, retention) && 0 <= retention < U64_END
    ensures Contains(History(blocks), x) <==>
            exists i :: 0 <= i < |blocks| && LastOfTime(blocks, i) && Recent(blocks, i, retention)
                        && blocks[i].root == x
  {
    RootsKnown(blocks, x);
    if i :| 0 <= i < |blocks| && Kept(blocks, i) && blocks[i].root == x {
      RetainedIsRecent(blocks, i, retention);
    }
    if i :| 0 <= i < |blocks| && LastOfTime(blocks, i) && Recent(blocks, i, retention) && blocks[i].root == x {
      RetainedIsRecent(blocks, i, retention);
      assert Kept(blocks, i);
    }
  }
}
