/**
 * The post-processing half of `fetch_guids`: every host's `ibstat` output is
 * normalised (`0x00` becomes `0x`, the form SHARP reports GUIDs in), split on
 * whitespace, and each token is entered in a GUID -> host table. A host whose
 * command failed contributes nothing. The remote command itself is an input.
 */
module GuidTable {
  import opened PyStr
  import opened PyDict

  /** What `run_remote_cmd` hands back for one host: its `stdout` and `return_code`. */
  datatype CommandResult = CommandResult(host: string, stdout: string, returnCode: int)

  /** The prefix `ibstat` prints before a port GUID. */
  const RawPrefix: string := "0x00"
  /** The prefix SHARP prints before the same GUID. */
  const SharpPrefix: string := "0x"

  /** The GUIDs a host reports: every `0x00` of its output becomes `0x`, then the output is split at whitespace. */
  function NormalizeGuids(stdout: string): (r: seq<string>)
    ensures forall k :: 0 <= k < |r| ==> |r[k]| > 0 && NoSpace(r[k])
  {
    SplitWs(ReplaceAll(stdout, RawPrefix, SharpPrefix))
  }

  /** `for node_guid in tokens: d[node_guid] = host` */
  function PutAll(d: Dict<string, string>, tokens: seq<string>, host: string): (r: Dict<string, string>)
    requires Valid(d)
    ensures Valid(r)
    ensures r.entries == d.entries + Owned(tokens, host)
    ensures |d.keys| <= |r.keys| && r.keys[..|d.keys|] == d.keys
    decreases |tokens|
  {
    if |tokens| == 0 then d
    else
      var pre := PutAll(d, tokens[..|tokens| - 1], host);
      OwnedStep(d.entries, tokens, host);
      Put(pre, tokens[|tokens| - 1], host)
  }

  /** Every token of `tokens`, mapped to `host`. */
  function Owned(tokens: seq<string>, host: string): map<string, string> {
    map g | g in tokens :: host
  }

  lemma OwnedStep(m: map<string, string>, tokens: seq<string>, host: string)
    requires |tokens| > 0
    ensures m + Owned(tokens, host) == (m + Owned(tokens[..|tokens| - 1], host))[tokens[|tokens| - 1] := host]
  {
    var pre := tokens[..|tokens| - 1];
    assert tokens == pre + [tokens[|tokens| - 1]];
    assert Owned(tokens, host) == Owned(pre, host)[tokens[|tokens| - 1] := host];
  }

  /** The table after one more host's result: its tokens if its command succeeded. */
  function Record(t: Dict<string, string>, result: CommandResult): (r: Dict<string, string>)
    requires Valid(t)
    ensures Valid(r)
  {
    if result.returnCode == 0 then PutAll(t, NormalizeGuids(result.stdout), result.host) else t
  }

  /** The table `fetch_guids` returns for the command results of the hosts, in host order. */
  function Table(results: seq<CommandResult>): (t: Dict<string, string>)
    ensures Valid(t)
    decreases |results|
  {
    if |results| == 0 then Empty()
    else Record(Table(results[..|results| - 1]), results[|results| - 1])
  }

  method FetchGuids(results: seq<CommandResult>) returns (guids: Dict<string, string>)
    ensures guids == Table(results)
  {
    guids := Empty();
    var i := 0;
    while i < |results|
      invariant 0 <= i <= |results|
      invariant guids == Table(results[..i])
    {
      var result := results[i];
      TableAfter(results, i);
      if result.returnCode == 0 {
        var nodeGuids := NormalizeGuids(result.stdout);
        guids := EnterGuids(guids, nodeGuids, result.host);
      }
      i := i + 1;
    }
    assert results[..i] == results;
  }

  /** The inner loop: `guids[node_guid] = host` for each token in turn. */
  method EnterGuids(guids: Dict<string, string>, nodeGuids: seq<string>, host: string) returns (r: Dict<string, string>)
    requires Valid(guids)
    ensures r == PutAll(guids, nodeGuids, host)
  {
    r := guids;
    var j := 0;
    while j < |nodeGuids|
      invariant 0 <= j <= |nodeGuids|
      invariant r == PutAll(guids, nodeGuids[..j], host)
    {
      PutAllAfter(guids, nodeGuids, j, host);
      r := Put(r, nodeGuids[j], host);
      j := j + 1;
    }
    assert nodeGuids[..j] == nodeGuids;
  }

  lemma PutAllAfter(d: Dict<string, string>, tokens: seq<string>, j: nat, host: string)
    requires Valid(d) && j < |tokens|
    ensures PutAll(d, tokens[..j + 1], host) == Put(PutAll(d, tokens[..j], host), tokens[j], host)
  {
    assert tokens[..j + 1][..j] == tokens[..j];
  }

  lemma TableAfter(results: seq<CommandResult>, i: nat)
    requires i < |results|
    ensures Table(results[..i + 1])
         == if results[i].returnCode == 0
            then PutAll(Table(results[..i]), NormalizeGuids(results[i].stdout), results[i].host)
            else Table(results[..i])
  {
    assert results[..i + 1][..i] == results[..i];
  }

  /** Host `r` succeeded and its normalised output lists `g`. */
  predicate Reports(r: CommandResult, g: string) {
    r.returnCode == 0 && g in NormalizeGuids(r.stdout)
  }

  /** A GUID is in the table exactly when some successful host reported it. */
  lemma TableDomain(results: seq<CommandResult>, g: string)
    ensures g in Table(results).entries <==> exists i :: 0 <= i < |results| && Reports(results[i], g)
  {
    if exists i :: 0 <= i < |results| && Reports(results[i], g) {
      var i :| 0 <= i < |results| && Reports(results[i], g);
      TableHas(results, i, g);
    }
    if g in Table(results).entries {
      TableFrom(results, g);
    }
  }

  /** A GUID some successful host reported is in the table. */
  lemma {:induction false} TableHas(results: seq<CommandResult>, i: nat, g: string)
    requires i < |results| && Reports(results[i], g)
    ensures g in Table(results).entries
    decreases |results|
  {
    var n := |results| - 1;
    var pre := results[..n];
    TableStep(results);
    if i < n {
      assert pre[i] == results[i];
      TableHas(pre, i, g);
    }
  }

  /** Every GUID of the table was reported by some successful host. */
  lemma {:induction false} TableFrom(results: seq<CommandResult>, g: string)
    requires g in Table(results).entries
    ensures exists i :: 0 <= i < |results| && Reports(results[i], g)
    decreases |results|
  {
    var n := |results| - 1;
    var pre := results[..n];
    TableStep(results);
    if g in Table(pre).entries {
      TableFrom(pre, g);
      var i :| 0 <= i < n && Reports(pre[i], g);
      assert results[i] == pre[i];
    } else {
      assert Reports(results[n], g);
    }
  }

  /** The table after one more host, in terms of the owners its output assigns. */
  lemma TableStep(results: seq<CommandResult>)
    requires |results| > 0
    ensures var last := results[|results| - 1];
      Table(results).entries
      == if last.returnCode == 0
         then Table(results[..|results| - 1]).entries + Owned(NormalizeGuids(last.stdout), last.host)
         else Table(results[..|results| - 1]).entries
  {
  }

  /** The last host to report a GUID owns it: later hosts overwrite earlier ones. */
  lemma {:induction false} TableLastReport(results: seq<CommandResult>, i: nat, g: string)
    requires i < |results| && Reports(results[i], g)
    requires forall j :: i < j < |results| ==> !Reports(results[j], g)
    ensures g in Table(results).entries && Table(results).entries[g] == results[i].host
    decreases |results|
  {
    var n := |results| - 1;
    var last := results[n];
    TableStep(results);
    if i == n {
      assert g in Owned(NormalizeGuids(last.stdout), last.host);
    } else {
      var pre := results[..n];
      assert pre[i] == results[i];
      forall j | i < j < |pre| ensures !Reports(pre[j], g) {
        assert pre[j] == results[j];
      }
      TableLastReport(pre, i, g);
      assert !Reports(last, g);
      assert last.returnCode == 0 ==> g !in Owned(NormalizeGuids(last.stdout), last.host);
    }
  }

  /** The table of a non-empty run is the table of all but the last result, updated by the last. */
  lemma TableLast(results: seq<CommandResult>)
    requires |results| > 0
    ensures Table(results) == Record(Table(results[..|results| - 1]), results[|results| - 1])
  {
  }

  /** A host whose command failed leaves no trace in the table. */
  lemma {:induction false} FailedHostIgnored(before: seq<CommandResult>, failed: CommandResult, after: seq<CommandResult>)
    requires failed.returnCode != 0
    ensures Table(before + [failed] + after) == Table(before + after)
    decreases |after|
  {
    var all := before + [failed] + after;
    if |after| == 0 {
      assert all == before + [failed];
      assert before + after == before;
      TableLast(all);
      assert all[..|all| - 1] == before;
    } else {
      var shorter := after[..|after| - 1];
      var last := after[|after| - 1];
      var kept := before + after;
      assert all[..|all| - 1] == before + [failed] + shorter;
      assert kept[..|kept| - 1] == before + shorter;
      assert all[|all| - 1] == last && kept[|kept| - 1] == last;
      TableLast(all);
      TableLast(kept);
      FailedHostIgnored(before, failed, shorter);
    }
  }

  predicate IsHexDigit(c: char) {
    '0' <= c <= '9' || 'a' <= c <= 'f' || 'A' <= c <= 'F'
  }

  predicate AllHex(d: string) {
    forall k :: 0 <= k < |d| ==> IsHexDigit(d[k])
  }

  /**
   * Text without an `x` that does not end in `0` cannot hold or begin an
   * occurrence of `0x00`, so `replace` copies it through unchanged.
   */
  lemma {:induction false} ReplaceCopies(u: string, rest: string)
    requires 'x' !in u
    requires u == [] || u[|u| - 1] != '0'
    ensures ReplaceAll(u + rest, RawPrefix, SharpPrefix) == u + ReplaceAll(rest, RawPrefix, SharpPrefix)
    decreases |u|
  {
    var s := u + rest;
    if |u| > 0 {
      NoRawPrefixAtHead(u, rest);
      var v := u[1..];
      assert s[1..] == v + rest;
      assert 'x' !in v by {
        forall k | 0 <= k < |v| ensures v[k] != 'x' {
          assert v[k] == u[k + 1];
        }
      }
      assert v == [] || v[|v| - 1] == u[|u| - 1];
      calc {
        ReplaceAll(s, RawPrefix, SharpPrefix);
        [s[0]] + ReplaceAll(s[1..], RawPrefix, SharpPrefix);
        [u[0]] + ReplaceAll(v + rest, RawPrefix, SharpPrefix);
        { ReplaceCopies(v, rest); }
        [u[0]] + (v + ReplaceAll(rest, RawPrefix, SharpPrefix));
        { assert [u[0]] + v == u; }
        u + ReplaceAll(rest, RawPrefix, SharpPrefix);
      }
    } else {
      assert s == rest;
    }
  }

  /** Such text does not begin with `0x00`. */
  lemma NoRawPrefixAtHead(u: string, rest: string)
    requires |u| > 0 && 'x' !in u && u[|u| - 1] != '0'
    ensures !StartsWith(u + rest, RawPrefix)
  {
    var s := u + rest;
    if |s| >= |RawPrefix| {
      if |u| >= 2 {
        assert u[1] in u;
        assert s[..|RawPrefix|][1] == u[1];
      } else {
        assert s[..|RawPrefix|][0] == u[0];
      }
    }
  }

  /** The two prefixes hold no whitespace, so `replace` never joins or splits tokens. */
  lemma PrefixesNoSpace()
    ensures NoSpace(RawPrefix) && NoSpace(SharpPrefix)
  {
    assert RawPrefix == ['0', 'x', '0', '0'];
    assert SharpPrefix == ['0', 'x'];
  }

  /** Normalising works token by token: each whitespace-separated token of the output is rewritten on its own. */
  lemma NormalizeTokenwise(stdout: string)
    ensures NormalizeGuids(stdout) == ReplaceEach(SplitWs(stdout), RawPrefix, SharpPrefix)
  {
    PrefixesNoSpace();
    ReplaceTokenwise(stdout, RawPrefix, SharpPrefix);
  }

  lemma HexNoSpace(d: string)
    requires AllHex(d)
    ensures NoSpace(d) && 'x' !in d
  {
    forall k | 0 <= k < |d| ensures !IsSpace(d[k]) && d[k] != 'x' {
      assert IsHexDigit(d[k]);
    }
  }

  /** The token `"0x00" + d` of hex digits `d` becomes `"0x" + d`: the hex digits hold no further `0x00`. */
  lemma RawGuidCanonical(d: string)
    requires AllHex(d)
    ensures ReplaceAll(RawPrefix + d, RawPrefix, SharpPrefix) == SharpPrefix + d
  {
    var s := RawPrefix + d;
    assert StartsWith(s, RawPrefix);
    assert s[|RawPrefix|..] == d;
    HexNoSpace(d);
    forall i ensures !OccursAt(d, RawPrefix, i) {
      if 0 <= i && i + |RawPrefix| <= |d| {
        assert d[i..i + |RawPrefix|][1] == d[i + 1] && d[i + 1] != 'x';
      }
    }
    ContainsAt(d, RawPrefix);
    ReplaceAbsent(d, RawPrefix, SharpPrefix);
  }

  /** A host reporting the single GUID `"0x00" + d` (stripped output) gets the one table key `"0x" + d`. */
  lemma CanonicalFromRaw(d: string)
    requires |d| > 0 && AllHex(d)
    ensures NormalizeGuids(RawPrefix + d) == [SharpPrefix + d]
  {
    HexNoSpace(d);
    PrefixesNoSpace();
    var token := RawPrefix + d;
    assert NoSpace(token) by {
      forall k | 0 <= k < |token| ensures !IsSpace(token[k]) {
        if k >= |RawPrefix| {
          assert token[k] == d[k - |RawPrefix|];
        } else {
          assert token[k] == RawPrefix[k];
        }
      }
    }
    SplitWsCons(token, []);
    assert token + [] == token;
    NormalizeTokenwise(token);
    RawGuidCanonical(d);
  }

  /** The GUIDs as `ibstat` prints them, with the extra `00` byte. */
  function RawGuids(ds: seq<string>): (r: seq<string>)
    ensures |r| == |ds|
    ensures forall k :: 0 <= k < |r| ==> r[k] == RawPrefix + ds[k]
  {
    if |ds| == 0 then [] else [RawPrefix + ds[0]] + RawGuids(ds[1..])
  }

  /** The same GUIDs as SHARP writes them. */
  function SharpGuids(ds: seq<string>): (r: seq<string>)
    ensures |r| == |ds|
    ensures forall k :: 0 <= k < |r| ==> r[k] == SharpPrefix + ds[k]
  {
    if |ds| == 0 then [] else [SharpPrefix + ds[0]] + SharpGuids(ds[1..])
  }

  /**
   * Any output whose whitespace-separated tokens are `0x00`-prefixed hex GUIDs,
   * however they are spaced, indented or terminated, normalises to exactly
   * the SHARP spellings, in order.
   */
  lemma NormalizeListing(stdout: string, ds: seq<string>)
    requires forall k :: 0 <= k < |ds| ==> AllHex(ds[k])
    requires SplitWs(stdout) == RawGuids(ds)
    ensures NormalizeGuids(stdout) == SharpGuids(ds)
  {
    NormalizeTokenwise(stdout);
    forall k | 0 <= k < |ds| ensures NormalizeGuids(stdout)[k] == SharpGuids(ds)[k] {
      RawGuidCanonical(ds[k]);
    }
  }

  /** The stripped output of `ibstat` for the port GUIDs `ds`: one `0x00`-prefixed GUID per line, no final newline. */
  function RawListing(ds: seq<string>): string {
    if |ds| == 0 then "" else Join(RawGuids(ds), '\n')
  }

  /** Normalising a stripped listing of hex GUIDs yields exactly the SHARP spellings, in order. */
  lemma NormalizeStrippedListing(ds: seq<string>)
    requires forall k :: 0 <= k < |ds| ==> |ds[k]| > 0 && AllHex(ds[k])
    ensures NormalizeGuids(RawListing(ds)) == SharpGuids(ds)
  {
    var raw := RawGuids(ds);
    if |ds| > 0 {
      PrefixesNoSpace();
      forall k | 0 <= k < |raw| ensures |raw[k]| > 0 && NoSpace(raw[k]) {
        HexNoSpace(ds[k]);
        assert raw[k] == RawPrefix + ds[k];
        forall j | 0 <= j < |raw[k]| ensures !IsSpace(raw[k][j]) {
          if j >= |RawPrefix| {
            assert raw[k][j] == ds[k][j - |RawPrefix|];
          } else {
            assert raw[k][j] == RawPrefix[j];
          }
        }
      }
      SplitWsJoin(raw, '\n');
    }
    NormalizeListing(RawListing(ds), ds);
  }

  /** Output with no `0x00` in it is only split, never rewritten. */
  lemma NoRawPrefixUnchanged(stdout: string)
    requires !Contains(stdout, RawPrefix)
    ensures NormalizeGuids(stdout) == SplitWs(stdout)
  {
    ReplaceAbsent(stdout, RawPrefix, SharpPrefix);
  }

  /**
   * `replace` rewrites every occurrence it finds in one pass but does not
   * rescan its own output, so normalising is not idempotent.
   */
  lemma NotIdempotent()
    ensures ReplaceAll("0x0000aa", RawPrefix, SharpPrefix) == "0x00aa"
    ensures ReplaceAll("0x00aa", RawPrefix, SharpPrefix) == "0xaa"
  {
    var s := "0x0000aa";
    assert StartsWith(s, RawPrefix);
    assert s[4..] == "00aa";
    ReplaceCopies("00aa", "");
    assert "00aa" + "" == "00aa";
    var t := "0x00aa";
    assert StartsWith(t, RawPrefix);
    assert t[4..] == "aa";
    ReplaceCopies("aa", "");
    assert "aa" + "" == "aa";
  }
}
