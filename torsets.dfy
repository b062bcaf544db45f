/**
 * `identify_torsets`: the per-switch device lists are walked in order; each
 * switch's GUIDs are looked up in the GUID -> host table, and every host not
 * seen before is labelled `torset-NN`, where `NN` is the number of distinct
 * labels in use when that switch's list is reached.
 */
module TorsetAssignment {
  import opened Wrappers
  import opened PyStr
  import opened PyDict
  import opened Faults
  import opened TorsetLabels

  /**
   * The GUIDs of one switch's list: the entry stripped, then split at commas;
   * joining them with commas gives the stripped entry back.
   */
  function GuidsOf(entry: string): (r: seq<string>)
    ensures |r| >= 1 && forall k :: 0 <= k < |r| ==> ',' !in r[k]
    ensures Join(r, ',') == Strip(entry)
  {
    JoinSplit(Strip(entry), ',');
    Split(Strip(entry), ',')
  }

  /** The labels in use in a host -> torset dict: the set of its values. */
  function LabelsInUse(m: Dict<string, string>): set<string> {
    m.entries.Values
  }

  /**
   * One GUID of a switch's list: a GUID the table lacks raises `KeyError`;
   * a host seen before keeps its label; a new host gets `tag`.
   */
  function AssignGuid(m: Dict<string, string>, guid: string, table: map<string, string>, tag: string)
    : (r: Result<Dict<string, string>, Fault>)
    requires Valid(m)
    ensures r.Success? ==> Valid(r.value)
  {
    if guid !in table then Failure(UnknownGuid(guid))
    else if table[guid] in m.entries then Success(m)
    else Success(Put(m, table[guid], tag))
  }

  /** The inner loop over one switch's GUIDs, stopping at the first `KeyError`. */
  function AssignSwitch(m: Dict<string, string>, guids: seq<string>, table: map<string, string>, tag: string)
    : (r: Result<Dict<string, string>, Fault>)
    requires Valid(m)
    ensures r.Success? ==> Valid(r.value)
    decreases |guids|
  {
    if |guids| == 0 then Success(m)
    else
      var pre := AssignSwitch(m, guids[..|guids| - 1], table, tag);
      if pre.Failure? then pre else AssignGuid(pre.value, guids[|guids| - 1], table, tag)
  }

  /**
   * One switch's list: its new hosts are labelled with the number of
   * distinct labels in use before it.
   */
  function AssignEntry(m: Dict<string, string>, entry: string, table: map<string, string>)
    : (r: Result<Dict<string, string>, Fault>)
    requires Valid(m)
    ensures r.Success? ==> Valid(r.value)
  {
    AssignSwitch(m, GuidsOf(entry), table, Label(|LabelsInUse(m)|))
  }

  /** The dict `identify_torsets` returns (or the `KeyError` it raises). */
  function Torsets(entries: seq<string>, table: map<string, string>): (r: Result<Dict<string, string>, Fault>)
    ensures r.Success? ==> Valid(r.value)
    decreases |entries|
  {
    if |entries| == 0 then Success(Empty())
    else
      var pre := Torsets(entries[..|entries| - 1], table);
      if pre.Failure? then pre else AssignEntry(pre.value, entries[|entries| - 1], table)
  }

  method IdentifyTorsets(deviceGuidsPerSwitch: seq<string>, guidToHost: Dict<string, string>)
    returns (r: Result<Dict<string, string>, Fault>)
    ensures r == Torsets(deviceGuidsPerSwitch, guidToHost.entries)
  {
    r := Success(Empty());
    var i := 0;
    while i < |deviceGuidsPerSwitch| && r.Success?
      invariant 0 <= i <= |deviceGuidsPerSwitch|
      invariant Torsets(deviceGuidsPerSwitch[..i], guidToHost.entries) == r
    {
      TorsetsAfter(deviceGuidsPerSwitch, i, guidToHost.entries);
      r := LabelSwitch(r.value, deviceGuidsPerSwitch[i], guidToHost.entries);
      i := i + 1;
    }
    TorsetsDone(deviceGuidsPerSwitch, i, guidToHost.entries, r);
  }

  /** The outer loop ends after the last switch or at the first failure; either way with the whole result. */
  lemma TorsetsDone(entries: seq<string>, i: nat, table: map<string, string>, r: Result<Dict<string, string>, Fault>)
    requires i <= |entries| && Torsets(entries[..i], table) == r && (i == |entries| || r.Failure?)
    ensures r == Torsets(entries, table)
  {
    if i < |entries| {
      TorsetsFailureStays(entries, i, table);
    } else {
      assert entries[..i] == entries;
    }
  }

  /** The body of the outer loop: one switch's list, its new hosts labelled by the labels in use. */
  method LabelSwitch(hostToTorset: Dict<string, string>, deviceGuidsOneSwitch: string, table: map<string, string>)
    returns (r: Result<Dict<string, string>, Fault>)
    requires Valid(hostToTorset)
    ensures r == AssignEntry(hostToTorset, deviceGuidsOneSwitch, table)
  {
    var deviceGuids := GuidsOf(deviceGuidsOneSwitch);
    var torsetIndex := |LabelsInUse(hostToTorset)|;
    r := AssignHosts(hostToTorset, deviceGuids, table, Label(torsetIndex));
  }

  /** The inner loop of `identify_torsets` for one switch, labelling new hosts `tag`. */
  method AssignHosts(hostToTorset: Dict<string, string>, deviceGuids: seq<string>, table: map<string, string>, tag: string)
    returns (r: Result<Dict<string, string>, Fault>)
    requires Valid(hostToTorset)
    ensures r == AssignSwitch(hostToTorset, deviceGuids, table, tag)
  {
    var current := hostToTorset;
    var j := 0;
    while j < |deviceGuids|
      invariant 0 <= j <= |deviceGuids|
      invariant AssignSwitch(hostToTorset, deviceGuids[..j], table, tag) == Success(current)
    {
      AssignAfter(hostToTorset, deviceGuids, j, table, tag);
      var guid := deviceGuids[j];
      if guid !in table {
        r := Failure(UnknownGuid(guid));
        AssignFailureStays(hostToTorset, deviceGuids, j + 1, table, tag);
        return;
      }
      var hostIp := table[guid];
      if hostIp !in current.entries {
        current := Put(current, hostIp, tag);
      }
      j := j + 1;
    }
    assert deviceGuids[..j] == deviceGuids;
    r := Success(current);
  }

  lemma AssignAfter(m: Dict<string, string>, guids: seq<string>, j: nat, table: map<string, string>, tag: string)
    requires Valid(m) && j < |guids|
    ensures var pre := AssignSwitch(m, guids[..j], table, tag);
      AssignSwitch(m, guids[..j + 1], table, tag) == if pre.Failure? then pre else AssignGuid(pre.value, guids[j], table, tag)
  {
    assert guids[..j + 1][..j] == guids[..j];
  }

  lemma TorsetsAfter(entries: seq<string>, i: nat, table: map<string, string>)
    requires i < |entries| && Torsets(entries[..i], table).Success?
    ensures var m := Torsets(entries[..i], table).value;
      Valid(m) && Torsets(entries[..i + 1], table) == AssignEntry(m, entries[i], table)
  {
    assert entries[..i + 1][..i] == entries[..i];
  }

  /** Once a lookup fails, the rest of the switch's list changes nothing. */
  lemma {:induction false} AssignFailureStays(m: Dict<string, string>, guids: seq<string>, k: nat,
                                              table: map<string, string>, tag: string)
    requires Valid(m) && k <= |guids|
    requires AssignSwitch(m, guids[..k], table, tag).Failure?
    ensures AssignSwitch(m, guids, table, tag) == AssignSwitch(m, guids[..k], table, tag)
    decreases |guids|
  {
    if k < |guids| {
      var pre := guids[..|guids| - 1];
      assert pre[..k] == guids[..k];
      AssignFailureStays(m, pre, k, table, tag);
    } else {
      assert guids[..k] == guids;
    }
  }

  /** Once a lookup fails, the remaining switches change nothing. */
  lemma {:induction false} TorsetsFailureStays(entries: seq<string>, k: nat, table: map<string, string>)
    requires k <= |entries|
    requires Torsets(entries[..k], table).Failure?
    ensures Torsets(entries, table) == Torsets(entries[..k], table)
    decreases |entries|
  {
    if k < |entries| {
      var pre := entries[..|entries| - 1];
      assert pre[..k] == entries[..k];
      TorsetsFailureStays(pre, k, table);
    } else {
      assert entries[..k] == entries;
    }
  }

  /** The hosts that one switch's known GUIDs resolve to. */
  function HostsOf(guids: seq<string>, table: map<string, string>): set<string> {
    set g | g in guids && g in table :: table[g]
  }

  /**
   * One switch: it succeeds exactly when every GUID is known, the error names
   * an unknown listed GUID, labels already given stay, and the hosts new to
   * the dict are exactly those it resolves to and all get `tag`.
   */
  lemma {:induction false} AssignSwitchShape(m: Dict<string, string>, guids: seq<string>, table: map<string, string>, tag: string)
    requires Valid(m)
    ensures var r := AssignSwitch(m, guids, table, tag);
      && (r.Success? <==> forall g :: g in guids ==> g in table)
      && (r.Failure? ==> r.error.UnknownGuid? && r.error.guid in guids && r.error.guid !in table)
      && (r.Success? ==> r.value.entries.Keys == m.entries.Keys + HostsOf(guids, table))
      && (r.Success? ==> forall h :: h in m.entries ==> r.value.entries[h] == m.entries[h])
      && (r.Success? ==> forall h :: h in r.value.entries && h !in m.entries ==> r.value.entries[h] == tag)
    decreases |guids|
  {
    if |guids| > 0 {
      var n := |guids| - 1;
      var pre := guids[..n];
      var guid := guids[n];
      AssignSwitchShape(m, pre, table, tag);
      assert forall g :: g in guids <==> g in pre || g == guid;
      var p := AssignSwitch(m, pre, table, tag);
      if p.Success? && guid in table {
        assert HostsOf(guids, table) == HostsOf(pre, table) + {table[guid]};
      }
    } else {
      assert HostsOf(guids, table) == {};
    }
  }

  /** A switch that brings no new host leaves the dict, and so the label count, as it was. */
  lemma {:induction false} NoNewHostNoNewLabel(m: Dict<string, string>, guids: seq<string>, table: map<string, string>, tag: string)
    requires Valid(m)
    requires AssignSwitch(m, guids, table, tag).Success?
    requires HostsOf(guids, table) <= m.entries.Keys
    ensures AssignSwitch(m, guids, table, tag) == Success(m)
    decreases |guids|
  {
    if |guids| > 0 {
      var pre := guids[..|guids| - 1];
      assert HostsOf(pre, table) <= HostsOf(guids, table);
      NoNewHostNoNewLabel(m, pre, table, tag);
      assert table[guids[|guids| - 1]] in HostsOf(guids, table);
    }
  }

  /** The labels after one switch: unchanged, or the old ones plus `tag` when some host was new. */
  lemma AssignSwitchLabels(m: Dict<string, string>, guids: seq<string>, table: map<string, string>, tag: string)
    requires Valid(m)
    requires AssignSwitch(m, guids, table, tag).Success?
    ensures var r := AssignSwitch(m, guids, table, tag).value;
      && (HostsOf(guids, table) <= m.entries.Keys ==> LabelsInUse(r) == LabelsInUse(m))
      && (!(HostsOf(guids, table) <= m.entries.Keys) ==> LabelsInUse(r) == LabelsInUse(m) + {tag})
  {
    var r := AssignSwitch(m, guids, table, tag).value;
    AssignSwitchShape(m, guids, table, tag);
    if HostsOf(guids, table) <= m.entries.Keys {
      NoNewHostNoNewLabel(m, guids, table, tag);
    } else {
      var h :| h in HostsOf(guids, table) && h !in m.entries;
      forall v | v in LabelsInUse(r) ensures v in LabelsInUse(m) + {tag} {
        var k :| k in r.entries && r.entries[k] == v;
        if k in m.entries {
          assert m.entries[k] == v;
        }
      }
      forall v | v in LabelsInUse(m) + {tag} ensures v in LabelsInUse(r) {
        if v == tag {
          assert r.entries[h] == tag;
        } else {
          var k :| k in m.entries && m.entries[k] == v;
          assert r.entries[k] == v;
        }
      }
    }
  }

  /** Every GUID the device lists name. */
  function Listed(entries: seq<string>): set<string>
    decreases |entries|
  {
    if |entries| == 0 then {}
    else
      var guids := GuidsOf(entries[|entries| - 1]);
      Listed(entries[..|entries| - 1]) + set g | g in guids
  }

  /** The hosts the listed GUIDs resolve to. */
  function Reached(entries: seq<string>, table: map<string, string>): set<string> {
    set g | g in Listed(entries) && g in table :: table[g]
  }

  /**
   * The whole walk succeeds exactly when every listed GUID is in the table;
   * otherwise the error names a listed GUID the table lacks.
   */
  lemma {:induction false} TorsetsOutcome(entries: seq<string>, table: map<string, string>)
    ensures var r := Torsets(entries, table);
      && (r.Success? <==> Listed(entries) <= table.Keys)
      && (r.Failure? ==> r.error.UnknownGuid? && r.error.guid in Listed(entries) && r.error.guid !in table)
    decreases |entries|
  {
    if |entries| > 0 {
      var n := |entries| - 1;
      var pre := entries[..n];
      TorsetsOutcome(pre, table);
      var p := Torsets(pre, table);
      var guids := GuidsOf(entries[n]);
      assert Listed(entries) == Listed(pre) + set g | g in guids;
      if p.Success? {
        AssignSwitchShape(p.value, guids, table, Label(|LabelsInUse(p.value)|));
      }
    }
  }

  /**
   * On success every reached host, and no other, has a label, and the labels
   * in use are exactly `torset-00` .. `torset-(k-1)` for some `k`.
   */
  lemma {:induction false} TorsetsLabelled(entries: seq<string>, table: map<string, string>)
    requires Torsets(entries, table).Success?
    ensures var m := Torsets(entries, table).value;
      && m.entries.Keys == Reached(entries, table)
      && LabelsInUse(m) == LabelsBelow(|LabelsInUse(m)|)
    decreases |entries|
  {
    if |entries| > 0 {
      var n := |entries| - 1;
      var pre := entries[..n];
      TorsetsLast(entries, table);
      TorsetsLabelled(pre, table);
      ReachedStep(entries, table);
      LabelledStep(Torsets(pre, table).value, GuidsOf(entries[n]), table);
    } else {
      assert Reached(entries, table) == {};
      assert LabelsBelow(0) == {};
    }
  }

  /** A successful walk went through its prefix successfully, then the last switch. */
  lemma TorsetsLast(entries: seq<string>, table: map<string, string>)
    requires |entries| > 0 && Torsets(entries, table).Success?
    ensures var pre := Torsets(entries[..|entries| - 1], table);
      && pre.Success?
      && Torsets(entries, table) == AssignEntry(pre.value, entries[|entries| - 1], table)
  {
  }

  lemma ReachedStep(entries: seq<string>, table: map<string, string>)
    requires |entries| > 0
    ensures Reached(entries, table) == Reached(entries[..|entries| - 1], table) + HostsOf(GuidsOf(entries[|entries| - 1]), table)
  {
    var guids := GuidsOf(entries[|entries| - 1]);
    assert Listed(entries) == Listed(entries[..|entries| - 1]) + set g | g in guids;
  }

  /** One switch keeps the labels a prefix `torset-00` .. `torset-(k-1)` and adds the new hosts. */
  lemma LabelledStep(m: Dict<string, string>, guids: seq<string>, table: map<string, string>)
    requires Valid(m) && LabelsInUse(m) == LabelsBelow(|LabelsInUse(m)|)
    requires AssignSwitch(m, guids, table, Label(|LabelsInUse(m)|)).Success?
    ensures var r := AssignSwitch(m, guids, table, Label(|LabelsInUse(m)|)).value;
      && r.entries.Keys == m.entries.Keys + HostsOf(guids, table)
      && LabelsInUse(r) == LabelsBelow(|LabelsInUse(r)|)
  {
    var k := |LabelsInUse(m)|;
    AssignSwitchShape(m, guids, table, Label(k));
    AssignSwitchLabels(m, guids, table, Label(k));
    LabelsBelowSize(k);
    LabelsBelowStep(k);
    LabelsBelowSize(k + 1);
  }

  /** Every host labelled in `before` has the same label in `after`. */
  predicate Keeps(before: map<string, string>, after: map<string, string>) {
    forall h :: h in before ==> h in after && after[h] == before[h]
  }

  /** Labels are never changed: every host labelled after a prefix of the lists keeps that label. */
  lemma {:induction false} LabelsKept(entries: seq<string>, k: nat, table: map<string, string>)
    requires k <= |entries|
    requires Torsets(entries, table).Success?
    ensures Torsets(entries[..k], table).Success?
    ensures Keeps(Torsets(entries[..k], table).value.entries, Torsets(entries, table).value.entries)
    decreases |entries| - k
  {
    if k == |entries| {
      assert entries[..k] == entries;
    } else {
      LabelsKept(entries, k + 1, table);
      StepKeeps(entries, k, table);
      KeepsTrans(Torsets(entries[..k], table).value.entries, Torsets(entries[..k + 1], table).value.entries,
                 Torsets(entries, table).value.entries);
    }
  }

  /** One more switch keeps every label already given. */
  lemma StepKeeps(entries: seq<string>, i: nat, table: map<string, string>)
    requires i < |entries| && Torsets(entries[..i + 1], table).Success?
    ensures Torsets(entries[..i], table).Success?
    ensures Keeps(Torsets(entries[..i], table).value.entries, Torsets(entries[..i + 1], table).value.entries)
  {
    var upto := entries[..i + 1];
    TorsetsLast(upto, table);
    assert upto[..i] == entries[..i];
    EntryKeeps(Torsets(entries[..i], table).value, entries[i], table);
  }

  lemma KeepsTrans(a: map<string, string>, b: map<string, string>, c: map<string, string>)
    requires Keeps(a, b) && Keeps(b, c)
    ensures Keeps(a, c)
  {
  }

  /** One switch's list keeps every label already given. */
  lemma EntryKeeps(m: Dict<string, string>, entry: string, table: map<string, string>)
    requires Valid(m) && AssignEntry(m, entry, table).Success?
    ensures Keeps(m.entries, AssignEntry(m, entry, table).value.entries)
  {
    AssignSwitchShape(m, GuidsOf(entry), table, Label(|LabelsInUse(m)|));
  }

  /**
   * The hosts first met at switch `i` all get the label whose index is the
   * number of labels in use before that switch.
   */
  lemma SwitchLabel(entries: seq<string>, i: nat, table: map<string, string>)
    requires i < |entries|
    requires Torsets(entries[..i + 1], table).Success?
    ensures Torsets(entries[..i], table).Success?
    ensures var before := Torsets(entries[..i], table).value;
      var after := Torsets(entries[..i + 1], table).value;
      forall h :: h in after.entries && h !in before.entries ==> after.entries[h] == Label(|LabelsInUse(before)|)
  {
    var upto := entries[..i + 1];
    assert upto[..i] == entries[..i];
    var p := Torsets(entries[..i], table);
    AssignSwitchShape(p.value, GuidsOf(entries[i]), table, Label(|LabelsInUse(p.value)|));
  }
}
