/** Stability of re-scanning: when upserting again inserts nothing. */
module Rescan {
  import opened Wrappers
  import opened Chains
  import opened JsonText
  import opened Volatile
  import opened Resources
  import opened ResourceLaws

  lemma SamePayloadEquivalence(c: Codec, a: Body, r: Resource, q: Resource)
    requires c.Valid()
    ensures Unchanged(c, a, r) && Unchanged(c, a, q) ==> SameAs(c, r, q)
    ensures Unchanged(c, a, r) && SameAs(c, q, r) ==> Unchanged(c, a, q)
    ensures SameAs(c, r, q) ==> SameAs(c, q, r)
  {
    var x, y, z := Deref(a.tags), Deref(r.tags), Deref(q.tags);
    if Unchanged(c, a, r) && Unchanged(c, a, q) {
      JsonEqualTransitive(c, a.attributes, r.attributes, r.attributes);
      JsonEqualTransitive(c, r.attributes, a.attributes, q.attributes);
      JsonEqualTransitive(c, x, y, y);
      JsonEqualTransitive(c, y, x, z);
    }
    if Unchanged(c, a, r) && SameAs(c, q, r) {
      JsonEqualTransitive(c, q.attributes, r.attributes, r.attributes);
      JsonEqualTransitive(c, a.attributes, r.attributes, q.attributes);
      JsonEqualTransitive(c, z, y, y);
      JsonEqualTransitive(c, x, y, z);
    }
  }

  /** Two incoming resources the comparison cannot tell apart. */
  predicate SameAs(c: Codec, r: Resource, q: Resource)
    requires c.Valid()
  {
    SamePayload(c, r.typ, r.attributes, r.tags, q.typ, q.attributes, q.tags)
  }

  ghost predicate Matches(c: Codec, s: State, r: Resource)
    requires c.Valid()
  {
    HasCurrent(s.rows, r.key) && Unchanged(c, s.rows[CurrentOf(s.rows, r.key)].body, r)
  }

  /** Same rows, same ids drawn, same payloads in the current rows. */
  ghost predicate SameVersions(s: State, t: State) {
    t.next == s.next && Refreshed(s.rows, t.rows)
  }

  lemma MatchesTransfers(c: Codec, s: State, t: State, r: Resource)
    requires c.Valid() && Good(s) && SameVersions(s, t)
    ensures Matches(c, t, r) <==> Matches(c, s, r)
  {
    hide Codec.Valid, BackLinks, ForwardLinks, OneRoot, IdsBelow;
    if HasCurrent(s.rows, r.key) {
      var i := CurrentOf(s.rows, r.key);
      assert IsCurrentOf(t.rows, r.key, i);
    }
    if HasCurrent(t.rows, r.key) {
      var j := CurrentOf(t.rows, r.key);
      assert IsCurrentOf(s.rows, r.key, j);
    }
  }

  // ------------------------------------------- what the first pass leaves

  lemma UpsertedRow(c: Codec, s: State, r: Resource, now: string) returns (i: nat)
    requires c.Valid() && IdsBelow(s.rows, s.next)
    ensures var t := UpsertRow(c, s, r, now).rows; IsCurrentOf(t, r.key, i) && Unchanged(c, t[i].body, r)
  {
    hide Codec.Valid;
    assert s.next !in s.rows;
    i := s.next;
    if HasCurrent(s.rows, r.key) && Unchanged(c, s.rows[CurrentOf(s.rows, r.key)].body, r) {
      i := CurrentOf(s.rows, r.key);
    }
  }

  /** Right after a resource is upserted, its current row matches it. */
  lemma UpsertedMatches(c: Codec, s: State, r: Resource, now: string)
    requires c.Valid() && Good(s)
    ensures Matches(c, UpsertRow(c, s, r, now), r)
  {
    hide Codec.Valid, BackLinks, ForwardLinks, OneRoot, IdsBelow, Unchanged, UpsertRow, Extends, OneCurrent, HasCurrent;
    UpsertRowKeeps(c, s, r, now);
    var i := UpsertedRow(c, s, r, now);
    MatchesFrom(c, UpsertRow(c, s, r, now), r, i);
  }

  lemma OtherRowsUntouched(c: Codec, s: State, r: Resource, now: string, j: nat)
    requires c.Valid() && IdsBelow(s.rows, s.next) && j in s.rows && s.rows[j].key != r.key
    ensures var t := UpsertRow(c, s, r, now).rows; j in t && t[j] == s.rows[j]
  {
    hide Codec.Valid, Unchanged;
    assert s.next !in s.rows;
  }

  lemma MatchesFrom(c: Codec, s: State, r: Resource, i: nat)
    requires c.Valid() && OneCurrent(s.rows) && IsCurrentOf(s.rows, r.key, i) && Unchanged(c, s.rows[i].body, r)
    ensures Matches(c, s, r)
  {
    hide Codec.Valid, Unchanged;
    CurrentIsUnique(s.rows, r.key, i);
  }

  /** Upserting one key leaves the current rows of the others alone. */
  lemma OthersUntouched(c: Codec, s: State, r: Resource, now: string, q: Resource)
    requires c.Valid() && Good(s) && q.key != r.key && Matches(c, s, q)
    ensures Matches(c, UpsertRow(c, s, r, now), q)
  {
    hide Codec.Valid, BackLinks, ForwardLinks, OneRoot, IdsBelow, Unchanged, UpsertRow, Extends, OneCurrent, HasCurrent;
    UpsertRowKeeps(c, s, r, now);
    var j := CurrentOf(s.rows, q.key);
    OtherRowsUntouched(c, s, r, now, j);
    MatchesFrom(c, UpsertRow(c, s, r, now), q, j);
  }

  predicate LastOfItsKey(rs: seq<Resource>, j: nat)
    requires j < |rs|
  {
    forall m :: j < m < |rs| ==> rs[m].key != rs[j].key
  }

  lemma {:induction false} LastOccurrenceMatches(c: Codec, s: State, rs: seq<Resource>, now: string, j: nat)
    requires c.Valid() && Good(s) && j < |rs| && LastOfItsKey(rs, j)
    ensures Matches(c, UpsertRows(c, s, rs, now), rs[j])
    decreases |rs|
  {
    var init, r := rs[..|rs|-1], rs[|rs|-1];
    var t := UpsertRows(c, s, init, now);
    UpsertRowsKeep(c, s, init, now);
    hide Good, Codec.Valid, Matches, UpsertRow;
    if j == |rs| - 1 {
      UpsertedMatches(c, t, r, now);
    } else {
      assert LastOfItsKey(init, j);
      LastOccurrenceMatches(c, s, init, now, j);
      OthersUntouched(c, t, r, now, init[j]);
    }
  }

  // --------------------------------------------------- the second pass

  lemma MatchingUpsert(c: Codec, s: State, r: Resource, now: string)
    requires c.Valid() && Good(s)
    ensures Matches(c, s, r) ==> SameVersions(s, UpsertRow(c, s, r, now))
    ensures !Matches(c, s, r) ==> |UpsertRow(c, s, r, now).rows| == |s.rows| + 1
    ensures |UpsertRow(c, s, r, now).rows| >= |s.rows|
  {
    UpsertRowAdds(c, s, r, now);
    if Matches(c, s, r) {
      var i := CurrentOf(s.rows, r.key);
      TouchRefreshes(s.rows, i, VerifiedBody(s.rows[i].body, r, now));
    }
  }

  lemma RefreshedTransitive(s: State, t: State, u: State)
    requires SameVersions(s, t) && SameVersions(t, u)
    ensures SameVersions(s, u)
  {
  }

  lemma SameVersionsSize(s: State, t: State)
    requires SameVersions(s, t)
    ensures |t.rows| == |s.rows|
  {
    assert |t.rows| == |t.rows.Keys| == |s.rows.Keys|;
  }

  lemma QuietStep(c: Codec, s: State, t: State, quiet: bool, r: Resource, now: string)
    requires c.Valid() && Good(s) && Good(t)
    requires |t.rows| >= |s.rows| && (|t.rows| == |s.rows| <==> quiet) && (quiet ==> SameVersions(s, t))
    ensures var u := UpsertRow(c, t, r, now);
      && |u.rows| >= |s.rows|
      && (|u.rows| == |s.rows| <==> quiet && Matches(c, s, r))
      && (quiet && Matches(c, s, r) ==> SameVersions(s, u))
  {
    hide Good, Codec.Valid, Matches, UpsertRow, SameVersions;
    MatchingUpsert(c, t, r, now);
    if quiet {
      MatchesTransfers(c, s, t, r);
      if Matches(c, s, r) {
        RefreshedTransitive(s, t, UpsertRow(c, t, r, now));
        SameVersionsSize(s, UpsertRow(c, t, r, now));
      }
    }
  }

  ghost predicate AllMatch(c: Codec, s: State, rs: seq<Resource>)
    requires c.Valid()
  {
    forall r :: r in rs ==> Matches(c, s, r)
  }

  lemma AllMatchSnoc(c: Codec, s: State, rs: seq<Resource>, r: Resource)
    requires c.Valid()
    ensures AllMatch(c, s, rs + [r]) <==> AllMatch(c, s, rs) && Matches(c, s, r)
  {
    hide Matches, Codec.Valid;
    assert forall q :: q in rs + [r] <==> q in rs || q == r;
  }

  /** A batch inserts nothing exactly when each of its resources matches the table as it
      was before the batch. */
  lemma QuietNothing(c: Codec, s: State, now: string)
    requires c.Valid()
    ensures UpsertRows(c, s, [], now) == s && AllMatch(c, s, []) && SameVersions(s, s)
  {
    assert Refreshed(s.rows, s.rows);
  }

  lemma UpsertRowsLast(c: Codec, s: State, rs: seq<Resource>, now: string)
    requires c.Valid() && rs != []
    ensures UpsertRows(c, s, rs, now) == UpsertRow(c, UpsertRows(c, s, rs[..|rs|-1], now), rs[|rs|-1], now)
  {
  }

  lemma {:induction false} QuietBatch(c: Codec, s: State, rs: seq<Resource>, now: string)
    requires c.Valid() && Good(s)
    ensures |UpsertRows(c, s, rs, now).rows| >= |s.rows|
    ensures |UpsertRows(c, s, rs, now).rows| == |s.rows| <==> AllMatch(c, s, rs)
    ensures AllMatch(c, s, rs) ==> SameVersions(s, UpsertRows(c, s, rs, now))
    decreases |rs|
  {
    hide *;
    if rs == [] {
      QuietNothing(c, s, now);
    } else {
      var init, r := rs[..|rs|-1], rs[|rs|-1];
      assert rs == init + [r];
      var t := UpsertRows(c, s, init, now);
      UpsertRowsLast(c, s, rs, now);
      QuietBatch(c, s, init, now);
      UpsertRowsKeep(c, s, init, now);
      QuietStep(c, s, t, AllMatch(c, s, init), r, now);
      AllMatchSnoc(c, s, init, r);
    }
  }

  /** Every two resources of the batch with one natural key carry the same payload. */
  ghost predicate Consistent(c: Codec, rs: seq<Resource>)
    requires c.Valid()
  {
    forall i, j :: 0 <= i < j < |rs| && rs[i].key == rs[j].key ==> SameAs(c, rs[i], rs[j])
  }

  lemma LastIndex(rs: seq<Resource>, j: nat) returns (m: nat)
    requires j < |rs|
    ensures j <= m < |rs| && rs[m].key == rs[j].key && LastOfItsKey(rs, m)
  {
    m := |rs| - 1;
    while rs[m].key != rs[j].key
      invariant j <= m < |rs| && forall k :: m < k < |rs| ==> rs[k].key != rs[j].key
      decreases m
    {
      m := m - 1;
    }
  }

  /** Upserting a committed batch again inserts nothing exactly when the batch does not
      carry one natural key with two different payloads. */
  lemma ReupsertInsertsNothing(c: Codec, s: State, rs: seq<Resource>, now: string, later: string)
    requires c.Valid() && Good(s)
    ensures var s1 := UpsertRows(c, s, rs, now);
      |UpsertRows(c, s1, rs, later).rows| == |s1.rows| <==> Consistent(c, rs)
  {
    var s1 := UpsertRows(c, s, rs, now);
    UpsertRowsKeep(c, s, rs, now);
    QuietBatch(c, s1, rs, later);
    hide Good, Codec.Valid, UpsertRows, SameAs, Unchanged;
    if AllMatch(c, s1, rs) {
      forall i, j | 0 <= i < j < |rs| && rs[i].key == rs[j].key
        ensures SameAs(c, rs[i], rs[j])
      {
        assert Matches(c, s1, rs[i]) && Matches(c, s1, rs[j]);
        SamePayloadEquivalence(c, s1.rows[CurrentOf(s1.rows, rs[i].key)].body, rs[i], rs[j]);
      }
    }
    if Consistent(c, rs) {
      forall r | r in rs
        ensures Matches(c, s1, r)
      {
        var j :| 0 <= j < |rs| && rs[j] == r;
        var m := LastIndex(rs, j);
        LastOccurrenceMatches(c, s, rs, now, m);
        SamePayloadEquivalence(c, s1.rows[CurrentOf(s1.rows, r.key)].body, rs[m], r);
        assert j < m ==> SameAs(c, r, rs[m]);
      }
    }
  }

  /** In particular a batch of distinct natural keys. */
  lemma DistinctBatchReupsert(c: Codec, s: State, rs: seq<Resource>, now: string, later: string)
    requires c.Valid() && Good(s)
    requires forall i, j :: 0 <= i < j < |rs| ==> rs[i].key != rs[j].key
    ensures var s1 := UpsertRows(c, s, rs, now);
      |UpsertRows(c, s1, rs, later).rows| == |s1.rows|
  {
    ReupsertInsertsNothing(c, s, rs, now, later);
  }

  // ----------------------------- scans that differ only where they may

  /** As scanned, before preprocessing: the same resource up to display columns, tags
      that compare equal, and attributes that are the same text or differ only at
      volatile paths and in redacted scalars. */
  ghost predicate DiffersOnlyWhereAllowed(p: Policy, r: Resource, q: Resource)
    requires p.codec.Valid()
  {
    && r.key == q.key && r.typ == q.typ && JsonEqual(p.codec, Deref(r.tags), Deref(q.tags))
    && (r.attributes == q.attributes ||
        (p.codec.parse(r.attributes).Some? && p.codec.parse(q.attributes).Some? &&
         DifferOnlyHidden(p.codec.parse(r.attributes).value, p.codec.parse(q.attributes).value,
                          p.RulesOf(r.typ), p.PathsOf(r.typ))))
  }

  lemma PreparedAlike(p: Policy, r: Resource, q: Resource)
    requires p.codec.Valid() && DiffersOnlyWhereAllowed(p, r, q)
    ensures SameAs(p.codec, p.Prepare(q), p.Prepare(r))
  {
    var rules, paths := p.RulesOf(r.typ), p.PathsOf(r.typ);
    if r.attributes != q.attributes {
      HiddenDifferencesCompareEqual(p.codec, rules, paths, r.attributes, q.attributes);
    }
    var a, b := NormaliseText(p.codec, rules, paths, r.attributes), NormaliseText(p.codec, rules, paths, q.attributes);
    JsonEqualTransitive(p.codec, a, b, b);
    JsonEqualTransitive(p.codec, Deref(r.tags), Deref(q.tags), Deref(q.tags));
  }

  /** A rescan that differs only where it may inserts nothing and changes no payload; of
      a resource not known before, one row is left. */
  lemma HarmlessRescan(p: Policy, s: State, r: Resource, q: Resource, now: string, later: string)
    requires p.codec.Valid() && Good(s) && DiffersOnlyWhereAllowed(p, r, q)
    ensures var s1 := UpsertRow(p.codec, s, p.Prepare(r), now);
      var s2 := UpsertRow(p.codec, s1, p.Prepare(q), later);
      && SameVersions(s1, s2) && |s2.rows| == |s1.rows|
      && (r.key !in Keys(s.rows) ==> exists i :: RowsOf(s2.rows, r.key, [i]))
  {
    var r', q' := p.Prepare(r), p.Prepare(q);
    var s1 := UpsertRow(p.codec, s, r', now);
    var s2 := UpsertRow(p.codec, s1, q', later);
    PreparedAlike(p, r, q);
    UpsertRowKeeps(p.codec, s, r', now);
    UpsertedMatches(p.codec, s, r', now);
    SamePayloadEquivalence(p.codec, s1.rows[CurrentOf(s1.rows, r.key)].body, r', q');
    MatchingUpsert(p.codec, s1, q', later);
    SameVersionsSize(s1, s2);
    if r.key !in Keys(s.rows) {
      KeyHasCurrent(s, r.key);
      OneRowOnly(p.codec, s, r', now, s2);
    }
  }

  lemma OneRowOnly(c: Codec, s: State, r: Resource, now: string, s2: State)
    requires c.Valid() && Good(s) && r.key !in Keys(s.rows) && !HasCurrent(s.rows, r.key)
    requires SameVersions(UpsertRow(c, s, r, now), s2)
    ensures RowsOf(s2.rows, r.key, [s.next])
  {
    assert forall i :: i in s.rows ==> s.rows[i].key in Keys(s.rows);
  }
}
