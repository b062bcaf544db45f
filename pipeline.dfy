/**
 * The extraction, torset and grouping stages run one after the other, as
 * `main` chains them: the device lists of the topology text, the
 * host -> torset dict, and the torset -> hosts dict written out per torset.
 */
module Pipeline {
  import opened Wrappers
  import opened PyStr
  import opened PyDict
  import opened TorsetLabels
  import opened DeviceLists
  import opened TorsetAssignment
  import opened TorsetGroups

  /**
   * Whatever the topology, the torset groups are keyed by exactly
   * `torset-00` .. `torset-(k-1)`, where `k` is the number of groups, and
   * every labelled host is in exactly the group of its label.
   */
  lemma GroupKeysAreLabels(entries: seq<string>, table: map<string, string>, h: string, torset: string)
    requires Torsets(entries, table).Success?
    ensures var m := Torsets(entries, table).value;
      var groups := Groups(Items(m));
      && groups.entries.Keys == LabelsBelow(|groups.keys|)
      && ((torset in groups.entries && h in groups.entries[torset])
          <==> (h in m.entries && m.entries[h] == torset))
  {
    var m := Torsets(entries, table).value;
    TorsetsLabelled(entries, table);
    GroupsOfDictKeys(m);
    GroupsOfDictMembers(m, torset, h);
  }

  /** `[torset-00, torset-01, ..., torset-(k-1)]` */
  function LabelSeq(k: nat): (r: seq<string>)
    ensures |r| == k
    ensures forall i :: 0 <= i < k ==> r[i] == Label(i)
  {
    if k == 0 then [] else LabelSeq(k - 1) + [Label(k - 1)]
  }

  /** Walking the dict in insertion order, its labels first appear as `torset-00`, `torset-01`, ... */
  predicate InLabelOrder(m: Dict<string, string>)
    requires Valid(m)
  {
    FirstSeen(Items(m)) == LabelSeq(|LabelsInUse(m)|)
  }

  /** The labels met walking a dict's items are its labels in use. */
  lemma FirstSeenValues(m: Dict<string, string>)
    requires Valid(m)
    ensures forall x :: x in FirstSeen(Items(m)) <==> x in LabelsInUse(m)
  {
    ItemsTorsets(m);
    forall x ensures x in FirstSeen(Items(m)) <==> x in LabelsInUse(m) {
      FirstSeenHas(Items(m), x);
    }
  }

  /** A new host joins the end of the items. */
  lemma ItemsPut(m: Dict<string, string>, h: string, tag: string)
    requires Valid(m) && h !in m.entries
    ensures Items(Put(m, h, tag)) == Items(m) + [(h, tag)]
    ensures LabelsInUse(Put(m, h, tag)) == LabelsInUse(m) + {tag}
  {
    var r := Put(m, h, tag);
    forall i | 0 <= i < |r.keys| ensures Items(r)[i] == (Items(m) + [(h, tag)])[i] {
      if i < |m.keys| {
        assert m.keys[i] in m.entries;
      }
    }
    forall v | v in LabelsInUse(m) ensures v in LabelsInUse(r) {
      var k :| k in m.entries && m.entries[k] == v;
      assert r.entries[k] == v;
    }
    assert r.entries[h] == tag;
  }

  lemma FirstSeenSnoc(items: seq<(string, string)>, p: (string, string))
    ensures FirstSeen(items + [p]) == if p.1 in FirstSeen(items) then FirstSeen(items) else FirstSeen(items) + [p.1]
  {
    assert (items + [p])[..|items|] == items;
  }

  /** Labelling a new host with a label in use, or with the next one, keeps the label order. */
  lemma PutInOrder(m: Dict<string, string>, h: string, tag: string)
    requires Valid(m) && InLabelOrder(m) && h !in m.entries
    requires tag == Label(|LabelsInUse(m)|) || tag in LabelsInUse(m)
    ensures InLabelOrder(Put(m, h, tag))
  {
    ItemsPut(m, h, tag);
    FirstSeenSnoc(Items(m), (h, tag));
    FirstSeenValues(m);
  }

  /** One switch, labelling its new hosts with a label in use or the next one, keeps the label order. */
  lemma {:induction false} AssignSwitchInOrder(m: Dict<string, string>, guids: seq<string>, table: map<string, string>, tag: string)
    requires Valid(m) && InLabelOrder(m)
    requires tag == Label(|LabelsInUse(m)|) || tag in LabelsInUse(m)
    requires AssignSwitch(m, guids, table, tag).Success?
    ensures var r := AssignSwitch(m, guids, table, tag).value;
      InLabelOrder(r) && (tag == Label(|LabelsInUse(r)|) || tag in LabelsInUse(r))
    decreases |guids|
  {
    if |guids| > 0 {
      var n := |guids| - 1;
      AssignSwitchInOrder(m, guids[..n], table, tag);
      var pre := AssignSwitch(m, guids[..n], table, tag).value;
      var host := table[guids[n]];
      if host !in pre.entries {
        PutInOrder(pre, host, tag);
        ItemsPut(pre, host, tag);
      }
    }
  }

  /** The dict `identify_torsets` builds meets its labels in the order `torset-00`, `torset-01`, ... */
  lemma {:induction false} TorsetsInOrder(entries: seq<string>, table: map<string, string>)
    requires Torsets(entries, table).Success?
    ensures InLabelOrder(Torsets(entries, table).value)
    decreases |entries|
  {
    if |entries| > 0 {
      var n := |entries| - 1;
      TorsetsLast(entries, table);
      TorsetsInOrder(entries[..n], table);
      var m := Torsets(entries[..n], table).value;
      AssignSwitchInOrder(m, GuidsOf(entries[n]), table, Label(|LabelsInUse(m)|));
    } else {
      assert Items(Empty<string, string>()) == [];
    }
  }

  /**
   * The torset groups come out keyed in numbering order: the `i`-th key is
   * `torset-` followed by the two-digit `i`.
   */
  lemma GroupKeysInOrder(entries: seq<string>, table: map<string, string>)
    requires Torsets(entries, table).Success?
    ensures var groups := Groups(Items(Torsets(entries, table).value));
      forall i :: 0 <= i < |groups.keys| ==> groups.keys[i] == Label(i)
  {
    var m := Torsets(entries, table).value;
    TorsetsInOrder(entries, table);
    GroupsKeyOrder(Items(m));
  }

  /** A `SwitchName=<sw> Nodes=<ids>` line is a `Nodes=` line, and extraction keeps `ids` from it. */
  lemma DeclaredLine(sw: string, ids: string)
    requires NoSpace(sw) && NoSpace(ids) && '=' !in ids
    ensures var line := "SwitchName=" + sw + " Nodes=" + ids;
      Contains(line, NodesKey) && NodesField(line) == Some(ids)
  {
    var line := "SwitchName=" + sw + " Nodes=" + ids;
    DeclarationField(sw, ids, false);
    var at := |"SwitchName=" + sw + " "|;
    assert line == ("SwitchName=" + sw + " ") + NodesKey + ids;
    assert line[at..at + |NodesKey|] == NodesKey;
    assert OccursAt(line, NodesKey, at);
    ContainsAt(line, NodesKey);
  }

  /** `SwitchName=<sw> Nodes=<ids>` */
  function NodesDeclaration(sw: string, ids: string): string {
    "SwitchName=" + sw + " Nodes=" + ids
  }

  /** A GUID that can sit in a comma-separated list of a declaration line. */
  predicate PlainGuid(g: string) {
    |g| > 0 && NoSpace(g) && ',' !in g && '=' !in g
  }

  lemma PairList(a: string, b: string)
    requires PlainGuid(a) && PlainGuid(b)
    ensures NoSpace(a + "," + b) && '=' !in a + "," + b
    ensures GuidsOf(a + "," + b) == [a, b]
  {
    var s := a + "," + b;
    forall k | 0 <= k < |s| ensures !IsSpace(s[k]) && s[k] != '=' {
      if k < |a| {
        assert s[k] == a[k];
      } else if k > |a| {
        assert s[k] == b[k - |a| - 1];
      }
    }
    assert s[0] == a[0] && s[|s| - 1] == b[|b| - 1];
    StripTrimmed(s);
    assert s == a + [','] + b;
    SplitFirst(a, b, ',');
    SplitNoSep(b, ',');
  }

  lemma SingleList(c: string)
    requires PlainGuid(c)
    ensures GuidsOf(c) == [c]
  {
    StripTrimmed(c);
    SplitNoSep(c, ',');
  }

  /** Both declarations are kept, in order. */
  lemma TwoDeclarations(sw1: string, sw2: string, a: string, b: string, c: string)
    requires NoSpace(sw1) && NoSpace(sw2) && PlainGuid(a) && PlainGuid(b) && PlainGuid(c)
    ensures DeviceGuidsPerSwitch([NodesDeclaration(sw1, a + "," + b), NodesDeclaration(sw2, c)]) == Success([a + "," + b, c])
  {
    var line1 := NodesDeclaration(sw1, a + "," + b);
    var line2 := NodesDeclaration(sw2, c);
    PairList(a, b);
    DeclaredLine(sw1, a + "," + b);
    DeclaredLine(sw2, c);
    assert [line1, line2][..1] == [line1];
    assert [line1][..0] == [];
    assert [] + [a + "," + b] == [a + "," + b];
    assert DeviceGuidsPerSwitch([line1]) == Success([a + "," + b]);
    assert [a + "," + b] + [c] == [a + "," + b, c];
  }

  lemma FirstSwitch(a: string, b: string, c: string, h1: string, h2: string)
    requires c != a && c != b
    ensures AssignSwitch(Empty(), [a, b], map[a := h1, b := h1, c := h2], Label(0))
         == Success(Dict([h1], map[h1 := Label(0)]))
  {
    var table := map[a := h1, b := h1, c := h2];
    assert [a, b][..1] == [a];
    assert [a][..0] == [];
    assert [] + [h1] == [h1];
    assert AssignSwitch(Empty(), [a], table, Label(0)) == Success(Dict([h1], map[h1 := Label(0)]));
  }

  lemma SecondSwitch(a: string, b: string, c: string, h1: string, h2: string)
    requires c != a && c != b && h1 != h2
    ensures AssignSwitch(Dict([h1], map[h1 := Label(0)]), [c], map[a := h1, b := h1, c := h2], Label(1))
         == Success(Dict([h1, h2], map[h1 := Label(0), h2 := Label(1)]))
  {
    assert [c][..0] == [];
    assert [h1] + [h2] == [h1, h2];
  }

  /** The host -> torset dict of the two switches: `h1` in `torset-00`, `h2` in `torset-01`. */
  lemma TwoTorsets(a: string, b: string, c: string, h1: string, h2: string)
    requires PlainGuid(a) && PlainGuid(b) && PlainGuid(c)
    requires c != a && c != b && h1 != h2
    ensures Torsets([a + "," + b, c], map[a := h1, b := h1, c := h2])
         == Success(Dict([h1, h2], map[h1 := Label(0), h2 := Label(1)]))
  {
    var table := map[a := h1, b := h1, c := h2];
    var lists := [a + "," + b, c];
    PairList(a, b);
    SingleList(c);
    FirstSwitch(a, b, c, h1, h2);
    SecondSwitch(a, b, c, h1, h2);
    assert lists[..1] == [a + "," + b];
    assert [a + "," + b][..0] == [];
    assert LabelsInUse(Empty<string, string>()) == {};
    var first := Dict([h1], map[h1 := Label(0)]);
    assert Torsets(lists[..1], table) == Success(first);
    assert LabelsInUse(first) == {Label(0)};
  }

  /**
   * Two switches, the first declaring GUIDs `a` and `b` of host `h1`, the
   * second GUID `c` of host `h2`: two torsets, `torset-00: [h1]` and
   * `torset-01: [h2]`.
   */
  lemma TwoSwitches(sw1: string, sw2: string, a: string, b: string, c: string, h1: string, h2: string)
    requires NoSpace(sw1) && NoSpace(sw2) && PlainGuid(a) && PlainGuid(b) && PlainGuid(c)
    requires c != a && c != b && h1 != h2
    ensures var lines := [NodesDeclaration(sw1, a + "," + b), NodesDeclaration(sw2, c)];
      var table := map[a := h1, b := h1, c := h2];
      && DeviceGuidsPerSwitch(lines).Success?
      && Torsets(DeviceGuidsPerSwitch(lines).value, table).Success?
      && var hostToTorset := Torsets(DeviceGuidsPerSwitch(lines).value, table).value;
         Groups(Items(hostToTorset))
         == Dict(["torset-00", "torset-01"], map["torset-00" := [h1], "torset-01" := [h2]])
  {
    TwoDeclarations(sw1, sw2, a, b, c);
    TwoTorsets(a, b, c, h1, h2);
    var both := Dict([h1, h2], map[h1 := Label(0), h2 := Label(1)]);
    FirstLabels();
    assert Items(both) == [(h1, "torset-00"), (h2, "torset-01")];
    GroupTwo(h1, h2, "torset-00", "torset-01");
  }

  /** Two hosts with two different labels: one group each, in host order. */
  lemma GroupTwo(h1: string, h2: string, t1: string, t2: string)
    requires t1 != t2
    ensures Groups([(h1, t1), (h2, t2)]) == Dict([t1, t2], map[t1 := [h1], t2 := [h2]])
  {
    var items := [(h1, t1), (h2, t2)];
    assert items[..1] == [(h1, t1)];
    assert [(h1, t1)][..0] == [];
    assert [] + [t1] == [t1];
    assert Groups([(h1, t1)]) == Dict([t1], map[t1 := [h1]]);
    assert [t1] + [t2] == [t1, t2];
  }
}
