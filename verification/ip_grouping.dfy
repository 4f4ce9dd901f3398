/**
 `EndpointsClient.get_o365_endpoints` of the timer function: the Office 365 endpoint
 records are grouped by service area into an insertion-ordered dictionary whose values
 are the concatenated IP-range lists.

 The reference definitions (`GroupKeys`, `IpsFor`, `Grouped`) say what the dictionary
 should hold; the method `GetO365Endpoints` follows the loop of the source, and its
 contract ties the two together.
 */
module IpGrouping {
  import opened Common
  import opened OrderedMaps

  /** The truthiness test on the `ips` value: present, not null, and not the empty list. */
  predicate HasIps(r: Record)
  {
    r.ips.Some? && |r.ips.value| > 0
  }

  /** Record `r` adds IP ranges under service area `k`. */
  predicate Contributes(r: Record, k: string)
  {
    HasIps(r) && r.serviceAreaDisplayName == Some(k)
  }

  predicate AllNamed(rs: seq<Record>)
  {
    forall j :: 0 <= j < |rs| ==> rs[j].serviceAreaDisplayName.Some?
  }

  /** The position of the first record without a service-area name, or |rs|. */
  function FirstUnnamed(rs: seq<Record>): (k: nat)
    ensures k <= |rs|
    ensures forall j :: 0 <= j < k ==> rs[j].serviceAreaDisplayName.Some?
    ensures k < |rs| ==> rs[k].serviceAreaDisplayName.None?
  {
    if |rs| == 0 || rs[0].serviceAreaDisplayName.None? then 0
    else 1 + FirstUnnamed(rs[1..])
  }

  /** The position of the first record that adds ranges under `k`, or |rs| when none does. */
  function FirstContributor(rs: seq<Record>, k: string): (j: nat)
    ensures j <= |rs|
    ensures j < |rs| ==> Contributes(rs[j], k)
    ensures forall i :: 0 <= i < j ==> !Contributes(rs[i], k)
  {
    if |rs| == 0 || Contributes(rs[0], k) then 0
    else 1 + FirstContributor(rs[1..], k)
  }

  /** Record `j` is the first to add ranges under its own service area. */
  predicate IsFirstContributor(rs: seq<Record>, j: int)
  {
    && 0 <= j < |rs|
    && HasIps(rs[j])
    && rs[j].serviceAreaDisplayName.Some?
    && forall i :: 0 <= i < j ==> !Contributes(rs[i], rs[j].serviceAreaDisplayName.value)
  }

  // ---------------------------------------------------------------------------
  // Reference definitions
  // ---------------------------------------------------------------------------

  /** The distinct service areas with ranges, in order of first appearance. */
  function GroupKeys(rs: seq<Record>): seq<string>
  {
    if |rs| == 0 then []
    else
      var ks := GroupKeys(rs[..|rs| - 1]);
      var r := rs[|rs| - 1];
      if HasIps(r) && r.serviceAreaDisplayName.Some? && r.serviceAreaDisplayName.value !in ks
      then ks + [r.serviceAreaDisplayName.value]
      else ks
  }

  /** The ranges of every record contributing to `k`, concatenated in record order. */
  function IpsFor(rs: seq<Record>, k: string): seq<string>
  {
    if |rs| == 0 then []
    else
      var r := rs[|rs| - 1];
      IpsFor(rs[..|rs| - 1], k) + (if Contributes(r, k) then r.ips.value else [])
  }

  /** The dictionary the grouping should build. */
  function Grouped(rs: seq<Record>): OrderedMap
  {
    var ks := GroupKeys(rs);
    seq(|ks|, i requires 0 <= i < |ks| => (ks[i], IpsFor(rs, ks[i])))
  }

  /** The input records as the grouping leaves them. The dictionary stores the first
      contributor's own list and later contributions extend that list in place, so the
      first contributor of each service area ends up holding the whole group. */
  function AfterGrouping(rs: seq<Record>): seq<Record>
  {
    seq(|rs|, j requires 0 <= j < |rs| =>
      if IsFirstContributor(rs, j)
      then rs[j].(ips := Some(IpsFor(rs, rs[j].serviceAreaDisplayName.value)))
      else rs[j])
  }

  // ---------------------------------------------------------------------------
  // Properties of the reference
  // ---------------------------------------------------------------------------

  lemma {:induction false} GroupKeysMembers(rs: seq<Record>)
    ensures forall k :: k in GroupKeys(rs) <==> exists j :: 0 <= j < |rs| && Contributes(rs[j], k)
  {
    if |rs| > 0 {
      var init := rs[..|rs| - 1];
      GroupKeysMembers(init);
      forall k
        ensures k in GroupKeys(rs) <==> exists j :: 0 <= j < |rs| && Contributes(rs[j], k)
      {
        if k in GroupKeys(rs) && !Contributes(rs[|rs| - 1], k) {
          assert k in GroupKeys(init);
          var j :| 0 <= j < |init| && Contributes(init[j], k);
          assert rs[j] == init[j];
        }
        if exists j :: 0 <= j < |rs| && Contributes(rs[j], k) {
          var j :| 0 <= j < |rs| && Contributes(rs[j], k);
          if j < |init| {
            assert Contributes(init[j], k);
          }
        }
      }
    }
  }

  lemma {:induction false} GroupKeysDistinct(rs: seq<Record>)
    ensures forall i, j :: 0 <= i < j < |GroupKeys(rs)| ==> GroupKeys(rs)[i] != GroupKeys(rs)[j]
  {
    if |rs| > 0 {
      GroupKeysDistinct(rs[..|rs| - 1]);
    }
  }

  /** Nothing contributes to `k`: its concatenation is empty. */
  lemma {:induction false} IpsForNone(rs: seq<Record>, k: string)
    requires forall j :: 0 <= j < |rs| ==> !Contributes(rs[j], k)
    ensures IpsFor(rs, k) == []
  {
    if |rs| > 0 {
      IpsForNone(rs[..|rs| - 1], k);
    }
  }

  /** The first contributor of `k` in a prefix stays the first contributor. */
  lemma FirstContributorPrefix(rs: seq<Record>, n: nat, k: string)
    requires n <= |rs|
    requires exists j :: 0 <= j < n && Contributes(rs[j], k)
    ensures FirstContributor(rs[..n], k) == FirstContributor(rs, k)
  {
    var j :| 0 <= j < n && Contributes(rs[j], k);
    assert Contributes(rs[..n][j], k);
    var a := FirstContributor(rs[..n], k);
    assert rs[..n][a] == rs[a];
  }

  /** Keys come in the order of their first contributing record. */
  lemma {:induction false} GroupKeysOrder(rs: seq<Record>)
    ensures forall i, j :: 0 <= i < j < |GroupKeys(rs)| ==>
      FirstContributor(rs, GroupKeys(rs)[i]) < FirstContributor(rs, GroupKeys(rs)[j])
  {
    if |rs| > 0 {
      GroupKeysOrder(rs[..|rs| - 1]);
      GroupKeysOrderStep(rs);
    }
  }

  /** The inductive step of `GroupKeysOrder`: the last record keeps the keys in order. */
  lemma GroupKeysOrderStep(rs: seq<Record>)
    requires |rs| > 0
    requires Ordered(rs[..|rs| - 1], GroupKeys(rs[..|rs| - 1]))
    ensures Ordered(rs, GroupKeys(rs))
  {
    var n := |rs| - 1;
    var ks := GroupKeys(rs[..n]);
    OrderedPrefix(rs);
    var r := rs[n];
    if HasIps(r) && r.serviceAreaDisplayName.Some? && r.serviceAreaDisplayName.value !in ks {
      var k := r.serviceAreaDisplayName.value;
      assert GroupKeys(rs) == ks + [k];
      assert forall i :: 0 <= i < |ks| ==> FirstContributor(rs, ks[i]) < FirstContributor(rs, k) by {
        KeysKeepFirstContributor(rs);
        NewKeyFirstContributor(rs);
      }
      OrderedSnoc(rs, ks, k);
    } else {
      assert GroupKeys(rs) == ks;
    }
  }

  /** The keys `ks` are listed in the order of their first contributors in `rs`. */
  ghost predicate Ordered(rs: seq<Record>, ks: seq<string>)
  {
    forall i, j :: 0 <= i < j < |ks| ==> FirstContributor(rs, ks[i]) < FirstContributor(rs, ks[j])
  }

  lemma OrderedSnoc(rs: seq<Record>, ks: seq<string>, k: string)
    requires Ordered(rs, ks)
    requires forall i :: 0 <= i < |ks| ==> FirstContributor(rs, ks[i]) < FirstContributor(rs, k)
    ensures Ordered(rs, ks + [k])
  {
    var ks' := ks + [k];
    forall i, j | 0 <= i < j < |ks'|
      ensures FirstContributor(rs, ks'[i]) < FirstContributor(rs, ks'[j])
    {
      assert ks'[i] == ks[i];
      if j < |ks| {
        assert ks'[j] == ks[j];
      }
    }
  }

  lemma OrderedPrefix(rs: seq<Record>)
    requires |rs| > 0
    requires Ordered(rs[..|rs| - 1], GroupKeys(rs[..|rs| - 1]))
    ensures Ordered(rs, GroupKeys(rs[..|rs| - 1]))
  {
    var init := rs[..|rs| - 1];
    var ks := GroupKeys(init);
    KeysKeepFirstContributor(rs);
    forall i, j | 0 <= i < j < |ks|
      ensures FirstContributor(rs, ks[i]) < FirstContributor(rs, ks[j])
    {
      assert ks[i] in ks && ks[j] in ks;
    }
  }

  /** Adding a record keeps the first contributor of every key found before it. */
  lemma KeysKeepFirstContributor(rs: seq<Record>)
    requires |rs| > 0
    ensures forall k :: k in GroupKeys(rs[..|rs| - 1]) ==>
      FirstContributor(rs[..|rs| - 1], k) == FirstContributor(rs, k) < |rs| - 1
  {
    var n := |rs| - 1;
    var init := rs[..n];
    GroupKeysMembers(init);
    forall k | k in GroupKeys(init)
      ensures FirstContributor(init, k) == FirstContributor(rs, k) < n
    {
      var j :| 0 <= j < |init| && Contributes(init[j], k);
      assert rs[j] == init[j];
      FirstContributorPrefix(rs, n, k);
    }
  }

  /** A record under a service area not seen before is that area's first contributor. */
  lemma NewKeyFirstContributor(rs: seq<Record>)
    requires |rs| > 0
    requires var r := rs[|rs| - 1];
      HasIps(r) && r.serviceAreaDisplayName.Some? &&
      r.serviceAreaDisplayName.value !in GroupKeys(rs[..|rs| - 1])
    ensures FirstContributor(rs, rs[|rs| - 1].serviceAreaDisplayName.value) == |rs| - 1
  {
    var n := |rs| - 1;
    var init := rs[..n];
    var k := rs[n].serviceAreaDisplayName.value;
    GroupKeysMembers(init);
    forall j | 0 <= j < n
      ensures !Contributes(rs[j], k)
    {
      assert init[j] == rs[j];
    }
  }

  /** The reference dictionary: its keys are distinct and are exactly the service areas
      of the records with a non-empty `ips` list, in order of first appearance, and each
      value is the concatenation of that area's lists in record order. */
  lemma GroupedCharacterised(rs: seq<Record>)
    ensures DistinctKeys(Grouped(rs))
    ensures forall k :: HasKey(Grouped(rs), k) <==> exists j :: 0 <= j < |rs| && Contributes(rs[j], k)
    ensures forall t, u :: 0 <= t < u < |Grouped(rs)| ==>
      FirstContributor(rs, Grouped(rs)[t].0) < FirstContributor(rs, Grouped(rs)[u].0)
    ensures forall t :: 0 <= t < |Grouped(rs)| ==> Grouped(rs)[t].1 == IpsFor(rs, Grouped(rs)[t].0)
  {
    var g := Grouped(rs);
    var ks := GroupKeys(rs);
    GroupKeysDistinct(rs);
    GroupKeysMembers(rs);
    GroupKeysOrder(rs);
    forall k
      ensures HasKey(g, k) <==> k in ks
    {
      if k in ks {
        var i :| 0 <= i < |ks| && ks[i] == k;
        assert g[i].0 == k;
      }
    }
  }

  /** The ranges of every contributing record, in record order. */
  function AllIps(rs: seq<Record>): seq<string>
  {
    if |rs| == 0 then []
    else
      var r := rs[|rs| - 1];
      AllIps(rs[..|rs| - 1]) + (if HasIps(r) && r.serviceAreaDisplayName.Some? then r.ips.value else [])
  }

  /** The values of a dictionary, concatenated in key order. */
  function AllValues(m: OrderedMap): seq<string>
  {
    if |m| == 0 then [] else AllValues(m[..|m| - 1]) + m[|m| - 1].1
  }

  /** Appending `v` to the list at position `t` adds exactly `v` to the values. */
  lemma {:induction false} AllValuesAppendAt(m: OrderedMap, t: nat, v: seq<string>)
    requires t < |m|
    ensures multiset(AllValues(m[t := (m[t].0, m[t].1 + v)])) == multiset(AllValues(m)) + multiset(v)
  {
    var n := |m| - 1;
    var m' := m[t := (m[t].0, m[t].1 + v)];
    var a := AllValues(m[..n]);
    assert AllValues(m) == a + m[n].1;
    if t < n {
      var a' := AllValues(m'[..n]);
      assert multiset(a') == multiset(a) + multiset(v) by {
        assert m'[..n] == m[..n][t := (m[..n][t].0, m[..n][t].1 + v)];
        AllValuesAppendAt(m[..n], t, v);
      }
      assert AllValues(m') == a' + m[n].1;
    } else {
      assert AllValues(m') == a + (m[n].1 + v) by {
        assert m'[..n] == m[..n];
      }
    }
  }

  /** Grouping neither loses nor invents a range: the dictionary's values hold exactly
      the ranges of the contributing records, counted with repetition. */
  lemma {:induction false} GroupedKeepsEveryRange(rs: seq<Record>)
    ensures multiset(AllValues(Grouped(rs))) == multiset(AllIps(rs))
  {
    if |rs| > 0 {
      var p := rs[..|rs| - 1];
      var r := rs[|rs| - 1];
      assert rs == p + [r];
      GroupedKeepsEveryRange(p);
      var g := Grouped(p);
      if HasIps(r) && r.serviceAreaDisplayName.Some? {
        var k := r.serviceAreaDisplayName.value;
        var v := r.ips.value;
        assert AllIps(rs) == AllIps(p) + v;
        if HasKey(g, k) {
          GroupedSnocExtend(p, r, k);
          var t := IndexOf(g, k);
          assert Grouped(rs) == g[t := (g[t].0, g[t].1 + v)];
          AllValuesAppendAt(g, t, v);
        } else {
          GroupedSnocNew(p, r, k);
          assert Grouped(rs) == g + [(k, v)];
          assert (g + [(k, v)])[..|g|] == g;
          assert AllValues(Grouped(rs)) == AllValues(g) + v;
        }
      } else {
        assert AllIps(rs) == AllIps(p);
        GroupedSnocUnnamedOrEmpty(p, r);
      }
    }
  }

  /** A record without ranges, or without a name, leaves the dictionary alone. */
  lemma GroupedSnocUnnamedOrEmpty(p: seq<Record>, r: Record)
    requires !HasIps(r) || r.serviceAreaDisplayName.None?
    ensures Grouped(p + [r]) == Grouped(p)
  {
    assert (p + [r])[..|p|] == p;
    assert GroupKeys(p + [r]) == GroupKeys(p);
    forall k
      ensures IpsFor(p + [r], k) == IpsFor(p, k)
    {
    }
  }

  /** The list stored under each service area is the very list its first contributing
      record holds once the grouping is done. */
  lemma GroupedSharesFirstList(rs: seq<Record>)
    ensures forall t :: 0 <= t < |Grouped(rs)| ==>
      FirstContributor(rs, Grouped(rs)[t].0) < |rs| &&
      AfterGrouping(rs)[FirstContributor(rs, Grouped(rs)[t].0)].ips == Some(Grouped(rs)[t].1)
  {
    var g := Grouped(rs);
    GroupKeysMembers(rs);
    forall t | 0 <= t < |g|
      ensures FirstContributor(rs, g[t].0) < |rs|
      ensures AfterGrouping(rs)[FirstContributor(rs, g[t].0)].ips == Some(g[t].1)
    {
      var k := g[t].0;
      assert k in GroupKeys(rs);
      var j :| 0 <= j < |rs| && Contributes(rs[j], k);
      var f := FirstContributor(rs, k);
      assert f <= j;
      assert IsFirstContributor(rs, f);
    }
  }

  /** The first contributor's own ranges open the group's concatenated list. */
  lemma {:induction false} IpsForStartsWithFirst(rs: seq<Record>, j: int)
    requires IsFirstContributor(rs, j)
    ensures rs[j].ips.value <= IpsFor(rs, rs[j].serviceAreaDisplayName.value)
  {
    var k := rs[j].serviceAreaDisplayName.value;
    var init := rs[..|rs| - 1];
    if j == |rs| - 1 {
      forall i | 0 <= i < |init| ensures !Contributes(init[i], k) {
        assert init[i] == rs[i];
      }
      IpsForNone(init, k);
    } else {
      assert init[j] == rs[j];
      forall i | 0 <= i < j ensures !Contributes(init[i], k) {
        assert init[i] == rs[i];
      }
      IpsForStartsWithFirst(init, j);
    }
  }

  /** The grouping only ever appends: every record keeps its name and its other fields,
      a record that is not the first contributor of its area is untouched, and the first
      contributor's list keeps its own ranges at the front. */
  lemma AfterGroupingOnlyExtends(rs: seq<Record>)
    ensures |AfterGrouping(rs)| == |rs|
    ensures forall j :: 0 <= j < |rs| ==>
      AfterGrouping(rs)[j].(ips := rs[j].ips) == rs[j]
    ensures forall j :: 0 <= j < |rs| && !IsFirstContributor(rs, j) ==> AfterGrouping(rs)[j] == rs[j]
    ensures forall j :: 0 <= j < |rs| && IsFirstContributor(rs, j) ==>
      AfterGrouping(rs)[j].ips.Some? && rs[j].ips.value <= AfterGrouping(rs)[j].ips.value
  {
    forall j | 0 <= j < |rs| && IsFirstContributor(rs, j)
      ensures rs[j].ips.value <= AfterGrouping(rs)[j].ips.value
    {
      IpsForStartsWithFirst(rs, j);
    }
  }

  /** The grouping of the two Exchange records and one Skype record: Skype has no
      ranges and gets no key, and the first Exchange record is left holding both ranges. */
  lemma ExchangeExample()
    ensures
      var rs := [
        Record(Some("Exchange"), Some(["1.2.3.0/24"]), Absent),
        Record(Some("Exchange"), Some(["5.6.7.0/24"]), Absent),
        Record(Some("Skype"), None, Present(["x.com"]))];
      && Grouped(rs) == [("Exchange", ["1.2.3.0/24", "5.6.7.0/24"])]
      && AfterGrouping(rs)[0].ips == Some(["1.2.3.0/24", "5.6.7.0/24"])
      && AfterGrouping(rs)[0] != rs[0]
  {
    var rs := [
      Record(Some("Exchange"), Some(["1.2.3.0/24"]), Absent),
      Record(Some("Exchange"), Some(["5.6.7.0/24"]), Absent),
      Record(Some("Skype"), None, Present(["x.com"]))];
    var r0, r1, r2 := rs[..1], rs[..2], rs[..3];
    assert r0[..0] == [] && r1[..1] == r0 && r2[..2] == r1 && r2 == rs;
    assert GroupKeys(r0) == ["Exchange"];
    assert GroupKeys(r1) == ["Exchange"];
    assert GroupKeys(rs) == ["Exchange"];
    assert IpsFor(r0, "Exchange") == ["1.2.3.0/24"];
    assert IpsFor(r1, "Exchange") == ["1.2.3.0/24", "5.6.7.0/24"];
    assert IpsFor(rs, "Exchange") == ["1.2.3.0/24", "5.6.7.0/24"];
    assert IsFirstContributor(rs, 0);
  }

  // ---------------------------------------------------------------------------
  // One iteration of the loop, on the reference
  // ---------------------------------------------------------------------------

  lemma HasKeyGrouped(rs: seq<Record>, k: string)
    ensures HasKey(Grouped(rs), k) <==> k in GroupKeys(rs)
    ensures DistinctKeys(Grouped(rs))
  {
    GroupKeysDistinct(rs);
    var ks := GroupKeys(rs);
    if k in ks {
      var i :| 0 <= i < |ks| && ks[i] == k;
      assert Grouped(rs)[i].0 == k;
    }
  }

  /** A record with ranges under a new service area appends a key. */
  lemma GroupedSnocNew(p: seq<Record>, r: Record, k: string)
    requires HasIps(r) && r.serviceAreaDisplayName == Some(k)
    requires !HasKey(Grouped(p), k)
    ensures Grouped(p + [r]) == Grouped(p) + [(k, r.ips.value)]
  {
    var q := p + [r];
    assert q[..|p|] == p;
    HasKeyGrouped(p, k);
    GroupKeysMembers(p);
    assert GroupKeys(q) == GroupKeys(p) + [k];
    IpsForNone(p, k);
    assert IpsFor(q, k) == r.ips.value;
    var ks := GroupKeys(p);
    forall i | 0 <= i < |ks|
      ensures IpsFor(q, ks[i]) == IpsFor(p, ks[i])
    {
    }
  }

  /** A record with ranges under a known service area extends that key's list. */
  lemma GroupedSnocExtend(p: seq<Record>, r: Record, k: string)
    requires HasIps(r) && r.serviceAreaDisplayName == Some(k)
    requires HasKey(Grouped(p), k)
    ensures DistinctKeys(Grouped(p))
    ensures Grouped(p + [r]) == Extend(Grouped(p), k, r.ips.value)
  {
    var q := p + [r];
    assert q[..|p|] == p;
    HasKeyGrouped(p, k);
    assert GroupKeys(q) == GroupKeys(p);
    var g := Grouped(p);
    var e := Extend(g, k, r.ips.value);
    var g' := Grouped(q);
    assert |g'| == |e|;
    forall t | 0 <= t < |g|
      ensures g'[t] == e[t]
    {
      if g[t].0 == k {
        assert t == IndexOf(g, k);
        assert IpsFor(q, k) == IpsFor(p, k) + r.ips.value;
      } else {
        assert IpsFor(q, g[t].0) == IpsFor(p, g[t].0);
      }
    }
  }

  // ---------------------------------------------------------------------------
  // One iteration of the loop, on the records left behind
  // ---------------------------------------------------------------------------

  lemma IsFirstContributorSnoc(p: seq<Record>, r: Record, j: int)
    requires 0 <= j < |p|
    ensures IsFirstContributor(p + [r], j) == IsFirstContributor(p, j)
  {
    var q := p + [r];
    assert forall i :: 0 <= i <= j ==> q[i] == p[i];
  }

  /** A record that starts no group and extends no list leaves every record as it was. */
  lemma AfterGroupingSnocUnchanged(p: seq<Record>, r: Record)
    requires !HasIps(r) || (r.serviceAreaDisplayName.Some? &&
      forall j :: 0 <= j < |p| ==> !Contributes(p[j], r.serviceAreaDisplayName.value))
    ensures AfterGrouping(p + [r]) == AfterGrouping(p) + [r]
  {
    var q := p + [r];
    assert q[..|p|] == p;
    var a := AfterGrouping(q);
    var b := AfterGrouping(p) + [r];
    forall j | 0 <= j < |q|
      ensures a[j] == b[j]
    {
      if j < |p| {
        IsFirstContributorSnoc(p, r, j);
        if IsFirstContributor(p, j) {
          var k := p[j].serviceAreaDisplayName.value;
          assert Contributes(p[j], k);
          assert IpsFor(q, k) == IpsFor(p, k);
        }
      } else {
        if HasIps(r) {
          var k := r.serviceAreaDisplayName.value;
          IpsForNone(p, k);
          assert IpsFor(q, k) == r.ips.value;
        }
      }
    }
  }

  /** A record extending the group of `k` changes only that group's first record. */
  lemma AfterGroupingSnocExtend(p: seq<Record>, r: Record, k: string, owner: nat)
    requires HasIps(r) && r.serviceAreaDisplayName == Some(k)
    requires IsFirstContributor(p, owner) && p[owner].serviceAreaDisplayName == Some(k)
    ensures AfterGrouping(p + [r]) ==
      AfterGrouping(p)[owner := p[owner].(ips := Some(IpsFor(p, k) + r.ips.value))] + [r]
  {
    var q := p + [r];
    assert q[..|p|] == p;
    var a := AfterGrouping(q);
    var b := AfterGrouping(p)[owner := p[owner].(ips := Some(IpsFor(p, k) + r.ips.value))] + [r];
    assert q[owner] == p[owner];
    forall j | 0 <= j < |q|
      ensures a[j] == b[j]
    {
      if j < |p| {
        IsFirstContributorSnoc(p, r, j);
        if IsFirstContributor(p, j) && j != owner {
          var k' := p[j].serviceAreaDisplayName.value;
          assert k' != k;
          assert IpsFor(q, k') == IpsFor(p, k');
        }
      }
    }
  }

  // ---------------------------------------------------------------------------
  // The loop
  // ---------------------------------------------------------------------------

  /** What holds after the first `i` records: the dictionary is the reference for them,
      `owners[t]` is the record whose list is stored under key `t`, and the records seen so
      far are as the grouping leaves them. */
  ghost predicate LoopInvariant(response: seq<Record>, i: nat, m: OrderedMap, owners: seq<nat>, after: seq<Record>)
  {
    && i <= |response|
    && AllNamed(response[..i])
    && m == Grouped(response[..i])
    && |owners| == |m|
    && (forall t :: 0 <= t < |m| ==>
          IsFirstContributor(response[..i], owners[t]) &&
          response[owners[t]].serviceAreaDisplayName == Some(m[t].0))
    && after == AfterGrouping(response[..i]) + response[i..]
  }

  lemma StepStart(response: seq<Record>)
    ensures LoopInvariant(response, 0, [], [], response)
  {
    assert response[..0] == [];
    assert AfterGrouping([]) == [];
    assert response[0..] == response;
  }

  lemma StepStop(response: seq<Record>, i: nat, m: OrderedMap, owners: seq<nat>, after: seq<Record>)
    requires LoopInvariant(response, i, m, owners, after) && i < |response|
    requires response[i].serviceAreaDisplayName.None?
    ensures FirstUnnamed(response) == i
    ensures m == Grouped(response[..FirstUnnamed(response)])
    ensures after == AfterGrouping(response[..FirstUnnamed(response)]) + response[FirstUnnamed(response)..]
  {
    var k := FirstUnnamed(response);
    assert forall j :: 0 <= j < i ==> response[..i][j] == response[j];
  }

  lemma StepFinish(response: seq<Record>, i: nat, m: OrderedMap, owners: seq<nat>, after: seq<Record>)
    requires LoopInvariant(response, i, m, owners, after) && i == |response|
    ensures AllNamed(response) && FirstUnnamed(response) == |response|
    ensures m == Grouped(response) == Grouped(response[..FirstUnnamed(response)])
    ensures after == AfterGrouping(response[..FirstUnnamed(response)]) + response[FirstUnnamed(response)..]
  {
    assert response[..i] == response;
  }

  lemma StepSkip(response: seq<Record>, i: nat, m: OrderedMap, owners: seq<nat>, after: seq<Record>)
    requires LoopInvariant(response, i, m, owners, after) && i < |response|
    requires response[i].serviceAreaDisplayName.Some? && !HasIps(response[i])
    ensures LoopInvariant(response, i + 1, m, owners, after)
  {
    var p := response[..i];
    var item := response[i];
    assert response[..i + 1] == p + [item];
    assert response[i..] == [item] + response[i + 1..];
    GroupedSnocUnnamedOrEmpty(p, item);
    AfterGroupingSnocUnchanged(p, item);
    forall t | 0 <= t < |m|
      ensures IsFirstContributor(response[..i + 1], owners[t])
    {
      IsFirstContributorSnoc(p, item, owners[t]);
    }
  }

  lemma StepNew(response: seq<Record>, i: nat, m: OrderedMap, owners: seq<nat>, after: seq<Record>,
                m': OrderedMap, owners': seq<nat>)
    requires LoopInvariant(response, i, m, owners, after) && i < |response|
    requires response[i].serviceAreaDisplayName.Some? && HasIps(response[i])
    requires !HasKey(m, response[i].serviceAreaDisplayName.value)
    requires m' == m + [(response[i].serviceAreaDisplayName.value, response[i].ips.value)]
    requires owners' == owners + [i]
    ensures LoopInvariant(response, i + 1, m', owners', after)
  {
    var p := response[..i];
    var item := response[i];
    var name := item.serviceAreaDisplayName.value;
    assert response[..i + 1] == p + [item];
    assert response[i..] == [item] + response[i + 1..];
    GroupedSnocNew(p, item, name);
    HasKeyGrouped(p, name);
    GroupKeysMembers(p);
    AfterGroupingSnocUnchanged(p, item);
    forall t | 0 <= t < |m'|
      ensures IsFirstContributor(response[..i + 1], owners'[t])
    {
      if t < |m| {
        IsFirstContributorSnoc(p, item, owners[t]);
      } else {
        assert forall j :: 0 <= j < i ==> !Contributes(p[j], name);
      }
    }
  }

  /** The position of the key a record extends, and the record holding its list. */
  lemma StepExtendOwner(response: seq<Record>, i: nat, m: OrderedMap, owners: seq<nat>, after: seq<Record>)
    requires LoopInvariant(response, i, m, owners, after) && i < |response|
    requires response[i].serviceAreaDisplayName.Some?
    requires HasKey(m, response[i].serviceAreaDisplayName.value)
    ensures DistinctKeys(m)
    ensures IndexOf(m, response[i].serviceAreaDisplayName.value) < |owners|
    ensures owners[IndexOf(m, response[i].serviceAreaDisplayName.value)] < |after|
  {
    HasKeyGrouped(response[..i], response[i].serviceAreaDisplayName.value);
    var t := IndexOf(m, response[i].serviceAreaDisplayName.value);
    assert IsFirstContributor(response[..i], owners[t]);
  }

  lemma StepExtend(response: seq<Record>, i: nat, m: OrderedMap, owners: seq<nat>, after: seq<Record>,
                   t: nat, m': OrderedMap, after': seq<Record>)
    requires LoopInvariant(response, i, m, owners, after) && i < |response|
    requires response[i].serviceAreaDisplayName.Some? && HasIps(response[i])
    requires HasKey(m, response[i].serviceAreaDisplayName.value) && DistinctKeys(m)
    requires t == IndexOf(m, response[i].serviceAreaDisplayName.value)
    requires t < |owners| && owners[t] < |after|
    requires m' == Extend(m, response[i].serviceAreaDisplayName.value, response[i].ips.value)
    requires after' == after[owners[t] := after[owners[t]].(ips := Some(m'[t].1))]
    ensures LoopInvariant(response, i + 1, m', owners, after')
  {
    var p := response[..i];
    var item := response[i];
    var name := item.serviceAreaDisplayName.value;
    assert response[..i + 1] == p + [item];
    assert response[i..] == [item] + response[i + 1..];
    var owner := owners[t];
    GroupedSnocExtend(p, item, name);
    AfterGroupingSnocExtend(p, item, name, owner);
    assert after[owner] == AfterGrouping(p)[owner];
    forall t' | 0 <= t' < |m|
      ensures IsFirstContributor(response[..i + 1], owners[t'])
    {
      IsFirstContributorSnoc(p, item, owners[t']);
    }
  }

  /** One pass of the loop in `get_o365_endpoints` over a named record: a new area with
      ranges gets its own entry, a known area has its list extended in place, and a record
      without ranges changes nothing. */
  method GroupRecord(response: seq<Record>, i: nat, m: OrderedMap, owners: seq<nat>, after: seq<Record>)
    returns (m': OrderedMap, owners': seq<nat>, after': seq<Record>)
    requires LoopInvariant(response, i, m, owners, after) && i < |response|
    requires response[i].serviceAreaDisplayName.Some?
    ensures LoopInvariant(response, i + 1, m', owners', after')
  {
    var item := response[i];
    var name := item.serviceAreaDisplayName.value;
    m', owners', after' := m, owners, after;
    if !HasKey(m, name) && HasIps(item) {
      m' := m + [(name, item.ips.value)];
      owners' := owners + [i];
      StepNew(response, i, m, owners, after, m', owners');
    } else if HasIps(item) {
      StepExtendOwner(response, i, m, owners, after);
      var t := IndexOf(m, name);
      m' := Extend(m, name, item.ips.value);
      after' := after[owners[t] := after[owners[t]].(ips := Some(m'[t].1))];
      StepExtend(response, i, m, owners, after, t, m', after');
    } else {
      StepSkip(response, i, m, owners, after);
    }
  }

  /** `get_o365_endpoints` after the HTTP call: groups the parsed response by service
      area. Every record must carry `serviceAreaDisplayName`, even one without ranges,
      because the name is read before the ranges are looked at; the first record without it
      raises `KeyError`. `sorted` is `self.sorted_ip_list` as the loop leaves it, which the
      object keeps even when the call raises: the groups of the records before the first
      unnamed one. `after` is the response as the loop leaves it: the stored lists are the
      records' own lists, extended in place. */
  method GetO365Endpoints(response: seq<Record>) returns (result: Result<OrderedMap>, sorted: OrderedMap, after: seq<Record>)
    ensures result.Ok? <==> AllNamed(response)
    ensures result.Err? ==> result.error == KeyError("serviceAreaDisplayName")
    ensures result.Ok? ==> result.value == sorted == Grouped(response)
    ensures sorted == Grouped(response[..FirstUnnamed(response)])
    ensures after == AfterGrouping(response[..FirstUnnamed(response)]) + response[FirstUnnamed(response)..]
  {
    var m: OrderedMap := [];
    var owners: seq<nat> := [];
    after := response;
    var i := 0;
    StepStart(response);
    while i < |response|
      invariant LoopInvariant(response, i, m, owners, after)
    {
      var item := response[i];
      if item.serviceAreaDisplayName.None? {
        StepStop(response, i, m, owners, after);
        return Err(KeyError("serviceAreaDisplayName")), m, after;
      }
      m, owners, after := GroupRecord(response, i, m, owners, after);
      i := i + 1;
    }
    StepFinish(response, i, m, owners, after);
    result, sorted := Ok(m), m;
  }
}
