/**
 The selection rule: which snapshot records survive the filter.

 `Retained` follows `filter_snapshots`'s branch structure (age test for the record's
 disk type, then the two type-wide exclusion tokens, then the identifier
 test); `Eligible` states the same rule as one conjunction and is the
 reference every property below is stated against.
 */
module Selection {
  import opened Snapshots
  import opened Ages

  /** The token that excludes every OS-disk snapshot. */
  const AllOsToken: string := "All_OS"
  /** The token that excludes every data-disk snapshot. */
  const AllDataToken: string := "All_Data"

  /** The filter's parameters: the two age thresholds in days and the exclusion list. */
  datatype Criteria = Criteria(osDays: int, dataDays: int, exclude: seq<string>)

  /** The age threshold that applies to a disk type. */
  function Threshold(t: DiskType, c: Criteria): int
  {
    match t
    case OS => c.osDays
    case Data => c.dataDays
  }

  /** The token that excludes a whole disk type. */
  function WholesaleToken(t: DiskType): string
  {
    match t
    case OS => AllOsToken
    case Data => AllDataToken
  }

  /** The rule as a conjunction: old enough for its type, its type not excluded
      wholesale, its identifier not excluded. */
  predicate Eligible(s: Snapshot, now: int, c: Criteria)
  {
    && AgeInDays(now, s.created) >= Threshold(s.diskType, c)
    && WholesaleToken(s.diskType) !in c.exclude
    && s.id !in c.exclude
  }

  /** The per-record decision, in the order `filter_snapshots` takes it. */
  predicate Retained(s: Snapshot, now: int, c: Criteria)
  {
    var age := AgeInDays(now, s.created);
    var excludeAllOs := AllOsToken in c.exclude;
    var excludeAllData := AllDataToken in c.exclude;
    if (s.diskType == OS && age >= c.osDays) || (s.diskType == Data && age >= c.dataDays) then
      if excludeAllOs && s.diskType == OS then false
      else if excludeAllData && s.diskType == Data then false
      else s.id !in c.exclude
    else false
  }

  /** The nested decision and the conjunction agree on every record. */
  lemma RetainedIffEligible(s: Snapshot, now: int, c: Criteria)
    ensures Retained(s, now, c) <==> Eligible(s, now, c)
  {
  }

  /** The records that pass, in input order. */
  function Filter(snaps: seq<Snapshot>, now: int, c: Criteria): (kept: seq<Snapshot>)
    ensures |kept| <= |snaps|
    ensures forall k :: 0 <= k < |kept| ==> Eligible(kept[k], now, c)
  {
    if |snaps| == 0 then []
    else
      var last := snaps[|snaps| - 1];
      var init := Filter(snaps[..|snaps| - 1], now, c);
      RetainedIffEligible(last, now, c);
      if Retained(last, now, c) then init + [last] else init
  }

  /** The positions of the records that pass, in increasing order. */
  function KeptPositions(snaps: seq<Snapshot>, now: int, c: Criteria): (pos: seq<int>)
    ensures forall k :: 0 <= k < |pos| ==> 0 <= pos[k] < |snaps|
    ensures forall k, l :: 0 <= k < l < |pos| ==> pos[k] < pos[l]
    ensures forall i :: 0 <= i < |snaps| ==> (i in pos <==> Eligible(snaps[i], now, c))
  {
    if |snaps| == 0 then []
    else
      var n := |snaps| - 1;
      var init := KeptPositions(snaps[..n], now, c);
      assert forall i :: 0 <= i < n ==> snaps[..n][i] == snaps[i];
      RetainedIffEligible(snaps[n], now, c);
      if Retained(snaps[n], now, c) then init + [n] else init
  }

  /** The output is an order-preserving subsequence of the input: position `k`
      of the output is the record at a strictly increasing input position. */
  ghost predicate Embeds(sub: seq<Snapshot>, full: seq<Snapshot>, pos: seq<int>)
  {
    && |pos| == |sub|
    && (forall k :: 0 <= k < |pos| ==> 0 <= pos[k] < |full| && sub[k] == full[pos[k]])
    && (forall k, l :: 0 <= k < l < |pos| ==> pos[k] < pos[l])
  }

  /** An embedding into a prefix is an embedding into the whole sequence. */
  lemma EmbedsGrow(sub: seq<Snapshot>, full: seq<Snapshot>, pos: seq<int>)
    requires |full| > 0
    requires Embeds(sub, full[..|full| - 1], pos)
    ensures Embeds(sub, full, pos)
  {
    forall k | 0 <= k < |pos| ensures sub[k] == full[pos[k]] {
      assert full[..|full| - 1][pos[k]] == full[pos[k]];
    }
  }

  /** Appending the last record of the whole sequence extends an embedding into its prefix. */
  lemma EmbedsAppendLast(sub: seq<Snapshot>, full: seq<Snapshot>, pos: seq<int>)
    requires |full| > 0
    requires Embeds(sub, full[..|full| - 1], pos)
    ensures Embeds(sub + [full[|full| - 1]], full, pos + [|full| - 1])
  {
    EmbedsGrow(sub, full, pos);
  }

  /** The filter's output sits in its input at exactly the kept positions. */
  lemma {:induction false} FilterIsOrderedSubsequence(snaps: seq<Snapshot>, now: int, c: Criteria)
    ensures Embeds(Filter(snaps, now, c), snaps, KeptPositions(snaps, now, c))
    decreases |snaps|
  {
    if |snaps| > 0 {
      var n := |snaps| - 1;
      FilterIsOrderedSubsequence(snaps[..n], now, c);
      if Retained(snaps[n], now, c) {
        EmbedsAppendLast(Filter(snaps[..n], now, c), snaps, KeptPositions(snaps[..n], now, c));
      } else {
        EmbedsGrow(Filter(snaps[..n], now, c), snaps, KeptPositions(snaps[..n], now, c));
      }
    }
  }

  /** A record is in the output exactly when it is in the input and eligible. */
  lemma {:induction false} FilterMembership(snaps: seq<Snapshot>, now: int, c: Criteria)
    ensures forall s :: s in Filter(snaps, now, c) <==> s in snaps && Eligible(s, now, c)
    decreases |snaps|
  {
    if |snaps| > 0 {
      var n := |snaps| - 1;
      FilterMembership(snaps[..n], now, c);
      RetainedIffEligible(snaps[n], now, c);
      assert snaps == snaps[..n] + [snaps[n]];
    }
  }

  /** Every returned record is at least as old as its type's threshold. */
  lemma KeptAreOldEnough(snaps: seq<Snapshot>, now: int, c: Criteria)
    ensures forall s :: s in Filter(snaps, now, c) ==> AgeInDays(now, s.created) >= Threshold(s.diskType, c)
  {
    FilterMembership(snaps, now, c);
  }

  /** `All_OS` removes every OS record and `All_Data` every data record, whatever their age. */
  lemma WholesaleExclusion(snaps: seq<Snapshot>, now: int, c: Criteria)
    ensures AllOsToken in c.exclude ==> forall s :: s in Filter(snaps, now, c) ==> s.diskType != OS
    ensures AllDataToken in c.exclude ==> forall s :: s in Filter(snaps, now, c) ==> s.diskType != Data
  {
    FilterMembership(snaps, now, c);
  }

  /** No returned record's identifier is on the exclusion list. */
  lemma ExcludedIdsAbsent(snaps: seq<Snapshot>, now: int, c: Criteria)
    ensures forall s :: s in Filter(snaps, now, c) ==> s.id !in c.exclude
  {
    FilterMembership(snaps, now, c);
  }

  /** Every input record that meets all three conditions is returned. */
  lemma Completeness(snaps: seq<Snapshot>, now: int, c: Criteria, s: Snapshot)
    requires s in snaps
    requires AgeInDays(now, s.created) >= Threshold(s.diskType, c)
    requires WholesaleToken(s.diskType) !in c.exclude
    requires s.id !in c.exclude
    ensures s in Filter(snaps, now, c)
  {
    FilterMembership(snaps, now, c);
  }

  /** Filtering distributes over concatenation. */
  lemma {:induction false} FilterConcat(a: seq<Snapshot>, b: seq<Snapshot>, now: int, c: Criteria)
    ensures Filter(a + b, now, c) == Filter(a, now, c) + Filter(b, now, c)
    decreases |b|
  {
    if |b| == 0 {
      assert a + b == a;
    } else {
      var b' := b[..|b| - 1];
      assert (a + b)[..|a + b| - 1] == a + b';
      assert (a + b)[|a + b| - 1] == b[|b| - 1];
      FilterConcat(a, b', now, c);
    }
  }

  /** Refiltering with a criterion that retains no more than a first one did
      gives the same as filtering the input once with the second criterion. */
  lemma {:induction false} FilterOfFilter(snaps: seq<Snapshot>, now: int, c: Criteria, now': int, c': Criteria)
    requires forall s :: Retained(s, now', c') ==> Retained(s, now, c)
    ensures Filter(snaps, now', c') == Filter(Filter(snaps, now, c), now', c')
    decreases |snaps|
  {
    if |snaps| > 0 {
      var init := snaps[..|snaps| - 1];
      var last := snaps[|snaps| - 1];
      FilterOfFilter(init, now, c, now', c');
      if Retained(last, now, c) {
        FilterConcat(Filter(init, now, c), [last], now', c');
        assert [last][..0] == [];
      }
    }
  }

  /** With the clock and the parameters fixed, filtering twice is filtering once. */
  lemma Idempotent(snaps: seq<Snapshot>, now: int, c: Criteria)
    ensures Filter(Filter(snaps, now, c), now, c) == Filter(snaps, now, c)
  {
    FilterOfFilter(snaps, now, c, now, c);
  }

  /** An exclusion list holding every token of another (in any order, with
      any repetitions or additions) never selects more: its output is the
      other list's output, filtered again. */
  lemma SupersetExclusionsKeepLess(snaps: seq<Snapshot>, now: int, c: Criteria, c': Criteria)
    requires c'.osDays == c.osDays && c'.dataDays == c.dataDays
    requires forall t :: t in c.exclude ==> t in c'.exclude
    ensures Filter(snaps, now, c') == Filter(Filter(snaps, now, c), now, c')
    ensures |Filter(snaps, now, c')| <= |Filter(snaps, now, c)|
  {
    forall s | Retained(s, now, c') ensures Retained(s, now, c) {
      RetainedIffEligible(s, now, c');
      RetainedIffEligible(s, now, c);
    }
    FilterOfFilter(snaps, now, c, now, c');
  }

  /** Appending exclusion tokens never adds records. */
  lemma MoreExclusionsKeepLess(snaps: seq<Snapshot>, now: int, c: Criteria, more: seq<string>)
    ensures Filter(snaps, now, c.(exclude := c.exclude + more))
         == Filter(Filter(snaps, now, c), now, c.(exclude := c.exclude + more))
    ensures |Filter(snaps, now, c.(exclude := c.exclude + more))| <= |Filter(snaps, now, c)|
  {
    SupersetExclusionsKeepLess(snaps, now, c, c.(exclude := c.exclude + more));
  }

  /** A record that is due stays due as the clock advances: the earlier output
      is the later output filtered at the earlier time. */
  lemma LaterKeepsMore(snaps: seq<Snapshot>, now: int, later: int, c: Criteria)
    requires now <= later
    ensures Filter(snaps, now, c) == Filter(Filter(snaps, later, c), now, c)
  {
    forall s | Retained(s, now, c) ensures Retained(s, later, c) {
      AgeMonotone(now, later, s.created);
    }
    FilterOfFilter(snaps, later, c, now, c);
  }

  /** Two criteria that decide every record of the input alike filter it alike. */
  lemma {:induction false} FilterAgree(snaps: seq<Snapshot>, now: int, c: Criteria, now': int, c': Criteria)
    requires forall i :: 0 <= i < |snaps| ==> (Retained(snaps[i], now, c) <==> Retained(snaps[i], now', c'))
    ensures Filter(snaps, now, c) == Filter(snaps, now', c')
    decreases |snaps|
  {
    if |snaps| > 0 {
      FilterAgree(snaps[..|snaps| - 1], now, c, now', c');
    }
  }

  /** An empty-string token (what splitting an empty exclusion string yields)
      excludes no record whose identifier is non-empty. */
  lemma EmptyTokenHarmless(snaps: seq<Snapshot>, now: int, c: Criteria)
    requires forall i :: 0 <= i < |snaps| ==> snaps[i].id != ""
    ensures Filter(snaps, now, c.(exclude := c.exclude + [""])) == Filter(snaps, now, c)
  {
    FilterAgree(snaps, now, c.(exclude := c.exclude + [""]), now, c);
  }

  /** `filter_snapshots`'s loop: walk the records in order, appending each one retained. */
  method FilterSnapshots(snaps: seq<Snapshot>, now: int, c: Criteria) returns (kept: seq<Snapshot>)
    ensures kept == Filter(snaps, now, c)
  {
    kept := [];
    var i := 0;
    while i < |snaps|
      invariant 0 <= i <= |snaps|
      invariant kept == Filter(snaps[..i], now, c)
    {
      var s := snaps[i];
      assert snaps[..i + 1][..i] == snaps[..i];
      if Retained(s, now, c) {
        kept := kept + [s];
      }
      i := i + 1;
    }
    assert snaps[..i] == snaps;
  }
}
