/**
 * `group_hosts_by_torset`: the host -> torset dict inverted into a
 * torset -> list-of-hosts dict. The pairs of `host_ip_to_torset.items()` are
 * visited in insertion order, so each list keeps that order and the torsets
 * appear in the order their first host does (`GroupsKeyOrder`).
 */
module TorsetGroups {
  import opened PyDict

  /** One pair: the host is appended to its torset's list, which is created if it is new. */
  function AddHost(t: Dict<string, seq<string>>, host: string, torset: string): (r: Dict<string, seq<string>>)
    requires Valid(t)
    ensures Valid(r)
  {
    if torset !in t.entries then Put(t, torset, [host]) else Put(t, torset, t.entries[torset] + [host])
  }

  /** The dict built from the (host, torset) pairs `items`, visited in order. */
  function Groups(items: seq<(string, string)>): (t: Dict<string, seq<string>>)
    ensures Valid(t)
    decreases |items|
  {
    if |items| == 0 then Empty()
    else
      var item := items[|items| - 1];
      AddHost(Groups(items[..|items| - 1]), item.0, item.1)
  }

  method GroupHostsByTorset(hostToTorset: Dict<string, string>) returns (torsets: Dict<string, seq<string>>)
    requires Valid(hostToTorset)
    ensures torsets == Groups(Items(hostToTorset))
  {
    var items := Items(hostToTorset);
    torsets := Empty();
    var i := 0;
    while i < |items|
      invariant 0 <= i <= |items|
      invariant torsets == Groups(items[..i])
    {
      var (hostIp, torset) := items[i];
      GroupsAfter(items, i);
      if torset !in torsets.entries {
        torsets := Put(torsets, torset, [hostIp]);
      } else {
        torsets := Put(torsets, torset, torsets.entries[torset] + [hostIp]);
      }
      i := i + 1;
    }
    assert items[..i] == items;
  }

  lemma GroupsAfter(items: seq<(string, string)>, i: nat)
    requires i < |items|
    ensures Groups(items[..i + 1]) == AddHost(Groups(items[..i]), items[i].0, items[i].1)
  {
    assert items[..i + 1][..i] == items[..i];
  }

  /** The hosts paired with `torset`, in visiting order. */
  function Members(items: seq<(string, string)>, torset: string): seq<string>
    decreases |items|
  {
    if |items| == 0 then []
    else
      var pre := Members(items[..|items| - 1], torset);
      var item := items[|items| - 1];
      if item.1 == torset then pre + [item.0] else pre
  }

  /** A host is a member of `torset` exactly when it was visited paired with `torset`. */
  lemma {:induction false} MembersExactly(items: seq<(string, string)>, torset: string, h: string)
    ensures h in Members(items, torset) <==> (h, torset) in items
    decreases |items|
  {
    if |items| > 0 {
      var pre := items[..|items| - 1];
      MembersExactly(pre, torset, h);
      assert (h, torset) in items <==> (h, torset) in pre || (h, torset) == items[|items| - 1];
    }
  }

  predicate Distinct(s: seq<string>) {
    forall i, j :: 0 <= i < j < |s| ==> s[i] != s[j]
  }

  /** No host is visited twice. */
  predicate DistinctHosts(items: seq<(string, string)>) {
    forall i, j :: 0 <= i < j < |items| ==> items[i].0 != items[j].0
  }

  /** Hosts visited once each are listed once each. */
  lemma {:induction false} MembersDistinct(items: seq<(string, string)>, torset: string)
    requires DistinctHosts(items)
    ensures Distinct(Members(items, torset))
    decreases |items|
  {
    if |items| > 0 {
      var n := |items| - 1;
      var pre := items[..n];
      var host := items[n].0;
      MembersDistinct(pre, torset);
      forall k | 0 <= k < |pre| ensures pre[k] != (host, torset) {
        assert items[k].0 != items[n].0;
      }
      MembersExactly(pre, torset, host);
    }
  }

  /** The torsets of the visited pairs. */
  function TorsetsOf(items: seq<(string, string)>): set<string> {
    set k | 0 <= k < |items| :: items[k].1
  }

  lemma TorsetsOfStep(items: seq<(string, string)>)
    requires |items| > 0
    ensures TorsetsOf(items) == TorsetsOf(items[..|items| - 1]) + {items[|items| - 1].1}
  {
    var n := |items| - 1;
    var pre := items[..n];
    forall t | t in TorsetsOf(items) ensures t in TorsetsOf(pre) + {items[n].1} {
      var k :| 0 <= k < |items| && items[k].1 == t;
      if k < n {
        assert pre[k] == items[k];
      }
    }
    forall t | t in TorsetsOf(pre) ensures t in TorsetsOf(items) {
      var k :| 0 <= k < |pre| && pre[k].1 == t;
      assert items[k] == pre[k];
    }
  }

  /** Nobody paired with `torset` means no members. */
  lemma {:induction false} MembersNone(items: seq<(string, string)>, torset: string)
    requires torset !in TorsetsOf(items)
    ensures Members(items, torset) == []
    decreases |items|
  {
    if |items| > 0 {
      TorsetsOfStep(items);
      MembersNone(items[..|items| - 1], torset);
    }
  }

  /**
   * The grouping holds one key per torset in use, and under each key exactly
   * the hosts paired with it, in visiting order.
   */
  lemma {:induction false} GroupsShape(items: seq<(string, string)>)
    ensures Groups(items).entries.Keys == TorsetsOf(items)
    ensures forall torset :: torset in Groups(items).entries ==> Groups(items).entries[torset] == Members(items, torset)
    decreases |items|
  {
    if |items| > 0 {
      var n := |items| - 1;
      var pre := items[..n];
      var (host, torset) := items[n];
      GroupsShape(pre);
      TorsetsOfStep(items);
      var before := Groups(pre);
      var after := Groups(items);
      assert after == AddHost(before, host, torset);
      if torset !in before.entries {
        MembersNone(pre, torset);
      }
      forall t | t in after.entries ensures after.entries[t] == Members(items, t) {
        assert Members(items, t) == if torset == t then Members(pre, t) + [host] else Members(pre, t);
      }
    } else {
      assert TorsetsOf(items) == {};
    }
  }

  /** `h` is in the list of `torset` exactly when `h` was visited paired with `torset`. */
  lemma GroupsInvert(items: seq<(string, string)>, torset: string, h: string)
    ensures (torset in Groups(items).entries && h in Groups(items).entries[torset]) <==> (h, torset) in items
  {
    GroupsShape(items);
    MembersExactly(items, torset, h);
    if (h, torset) in items {
      var k :| 0 <= k < |items| && items[k] == (h, torset);
      assert torset in TorsetsOf(items);
    }
  }

  /** The torsets of the visited pairs, each listed once, in the order each first appears. */
  function FirstSeen(items: seq<(string, string)>): seq<string>
    decreases |items|
  {
    if |items| == 0 then []
    else
      var pre := FirstSeen(items[..|items| - 1]);
      var torset := items[|items| - 1].1;
      if torset in pre then pre else pre + [torset]
  }

  /** `torset` appears in `items` before the first appearance of `other`. */
  predicate SeenBefore(items: seq<(string, string)>, torset: string, other: string) {
    exists k :: 0 <= k < |items| && items[k].1 == torset && forall l :: 0 <= l <= k ==> items[l].1 != other
  }

  /** `FirstSeen` lists exactly the torsets that some pair carries. */
  lemma {:induction false} FirstSeenHas(items: seq<(string, string)>, torset: string)
    ensures torset in FirstSeen(items) <==> exists k :: 0 <= k < |items| && items[k].1 == torset
    decreases |items|
  {
    if |items| > 0 {
      var n := |items| - 1;
      var pre := items[..n];
      FirstSeenHas(pre, torset);
      if exists k :: 0 <= k < |items| && items[k].1 == torset {
        var k :| 0 <= k < |items| && items[k].1 == torset;
        if k < n {
          assert pre[k].1 == torset;
        }
      }
      if exists k :: 0 <= k < |pre| && pre[k].1 == torset {
        var k :| 0 <= k < |pre| && pre[k].1 == torset;
        assert items[k].1 == torset;
      }
    }
  }

  /** Of two torsets in `FirstSeen`, the earlier one appears in `items` before the later one does. */
  lemma {:induction false} FirstSeenOrder(items: seq<(string, string)>, i: nat, j: nat)
    requires i < j < |FirstSeen(items)|
    ensures SeenBefore(items, FirstSeen(items)[i], FirstSeen(items)[j])
    decreases |items|
  {
    var n := |items| - 1;
    var pre := items[..n];
    var before := FirstSeen(pre);
    var t := FirstSeen(items)[i];
    var u := FirstSeen(items)[j];
    assert t == before[i];
    if j < |before| {
      FirstSeenOrder(pre, i, j);
      var k :| 0 <= k < |pre| && pre[k].1 == t && forall l :: 0 <= l <= k ==> pre[l].1 != u;
      assert items[k].1 == t;
      forall l | 0 <= l <= k ensures items[l].1 != u {
        assert pre[l] == items[l];
      }
    } else {
      assert u == items[n].1 && u !in before;
      FirstSeenHas(pre, t);
      FirstSeenHas(pre, u);
      var k :| 0 <= k < |pre| && pre[k].1 == t;
      assert items[k].1 == t;
      forall l | 0 <= l <= k ensures items[l].1 != u {
        assert pre[l] == items[l];
      }
    }
  }

  /** The grouping's keys come in the order `FirstSeen` gives: each torset where its first host was visited. */
  lemma {:induction false} GroupsKeyOrder(items: seq<(string, string)>)
    ensures Groups(items).keys == FirstSeen(items)
    decreases |items|
  {
    if |items| > 0 {
      var n := |items| - 1;
      var pre := items[..n];
      GroupsKeyOrder(pre);
      var before := Groups(pre);
      assert items[n].1 in before.entries <==> items[n].1 in before.keys;
    }
  }

  /** No torset is listed with no hosts. */
  lemma GroupsNonEmpty(items: seq<(string, string)>, torset: string)
    requires torset in Groups(items).entries
    ensures |Groups(items).entries[torset]| > 0
  {
    GroupsShape(items);
    var k :| 0 <= k < |items| && items[k].1 == torset;
    MembersExactly(items, torset, items[k].0);
  }

  /**
   * Grouping a whole host -> torset dict: the keys are exactly its labels,
   * as many keys as there are distinct labels.
   */
  lemma GroupsOfDictKeys(m: Dict<string, string>)
    requires Valid(m)
    ensures Groups(Items(m)).entries.Keys == m.entries.Values
    ensures |Groups(Items(m)).keys| == |m.entries.Values|
  {
    var items := Items(m);
    GroupsShape(items);
    ItemsTorsets(m);
    LengthIsSize(Groups(items));
  }

  /** The torsets of a dict's pairs are its values. */
  lemma ItemsTorsets(m: Dict<string, string>)
    requires Valid(m)
    ensures TorsetsOf(Items(m)) == m.entries.Values
  {
    var items := Items(m);
    forall v | v in m.entries.Values ensures v in TorsetsOf(items) {
      var x :| x in m.entries && m.entries[x] == v;
      var k :| 0 <= k < |m.keys| && m.keys[k] == x;
      assert items[k].1 == v;
    }
    forall v | v in TorsetsOf(items) ensures v in m.entries.Values {
      var k :| 0 <= k < |items| && items[k].1 == v;
      assert m.keys[k] in m.entries;
    }
  }

  /**
   * Grouping a whole host -> torset dict: a host is in a torset's list
   * exactly when the dict gives it that torset, and no host is listed twice.
   */
  lemma GroupsOfDictMembers(m: Dict<string, string>, torset: string, h: string)
    requires Valid(m)
    ensures var t := Groups(Items(m));
      && ((torset in t.entries && h in t.entries[torset]) <==> (h in m.entries && m.entries[h] == torset))
      && (torset in t.entries ==> Distinct(t.entries[torset]))
  {
    var items := Items(m);
    GroupsInvert(items, torset, h);
    ItemsExactly(m, h, torset);
    if torset in Groups(items).entries {
      assert DistinctHosts(items);
      GroupsShape(items);
      MembersDistinct(items, torset);
    }
  }
}
