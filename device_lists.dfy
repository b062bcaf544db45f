/**
 * `IBTopology._populate_device_guids_per_switch`: the comma-separated GUID
 * string of every topology line containing `Nodes=`, in file order.
 */
module DeviceLists {
  import opened Wrappers
  import opened PyStr
  import opened Faults

  const NodesKey: string := "Nodes="

  /**
   * The field of a `Nodes=` line: the line is stripped and split at single
   * spaces, and the result is the text after the first `=` of the second field, up to the next `=`. `None`
   * where Python raises `IndexError`: fewer than two fields, or no `=` in the
   * second one.
   */
  function NodesField(line: string): (r: Option<string>)
    ensures r.None? <==> |Split(Strip(line), ' ')| < 2 || '=' !in Split(Strip(line), ' ')[1]
  {
    var fields := Split(Strip(line), ' ');
    if |fields| < 2 then None
    else
      var kv := Split(fields[1], '=');
      SplitOnePiece(fields[1], '=');
      if |kv| < 2 then None else Some(kv[1])
  }

  /** The whole loop over the file, as a function of its lines (each may keep its newline). */
  function DeviceGuidsPerSwitch(lines: seq<string>): Result<seq<string>, Fault>
  {
    if |lines| == 0 then Success([])
    else match DeviceGuidsPerSwitch(lines[..|lines| - 1])
      case Failure(e) => Failure(e)
      case Success(acc) =>
        var line := lines[|lines| - 1];
        if !Contains(line, NodesKey) then Success(acc)
        else match NodesField(line)
          case None => Failure(MalformedLine(|lines| - 1, line))
          case Some(ids) => Success(acc + [ids])
  }

  /** The loop of the source: appends to `guids_per_switch`, stops at the first `IndexError`. */
  method PopulateDeviceGuidsPerSwitch(lines: seq<string>) returns (r: Result<seq<string>, Fault>)
    ensures r == DeviceGuidsPerSwitch(lines)
  {
    var guidsPerSwitch: seq<string> := [];
    var i := 0;
    while i < |lines|
      invariant 0 <= i <= |lines|
      invariant DeviceGuidsPerSwitch(lines[..i]) == Success(guidsPerSwitch)
    {
      var line := lines[i];
      assert lines[..i + 1][..i] == lines[..i];
      if Contains(line, NodesKey) {
        var field := NodesField(line);
        if field.None? {
          r := Failure(MalformedLine(i, line));
          FailureStays(lines, i + 1);
          return;
        }
        guidsPerSwitch := guidsPerSwitch + [field.value];
      }
      i := i + 1;
    }
    assert lines[..|lines|] == lines;
    r := Success(guidsPerSwitch);
  }

  /** Once a prefix of the file fails, the whole file fails with the same error. */
  lemma {:induction false} FailureStays(lines: seq<string>, i: nat)
    requires i <= |lines|
    requires DeviceGuidsPerSwitch(lines[..i]).Failure?
    ensures DeviceGuidsPerSwitch(lines) == DeviceGuidsPerSwitch(lines[..i])
    decreases |lines| - i
  {
    if i < |lines| {
      assert lines[..i + 1][..i] == lines[..i];
      FailureStays(lines, i + 1);
    } else {
      assert lines[..i] == lines;
    }
  }

  /** The lines that contain `Nodes=` anywhere, comment lines included, in file order. */
  function NodesLines(lines: seq<string>): (r: seq<string>)
    ensures forall k :: 0 <= k < |r| ==> Contains(r[k], NodesKey)
  {
    if |lines| == 0 then []
    else
      var rest := NodesLines(lines[..|lines| - 1]);
      var line := lines[|lines| - 1];
      if Contains(line, NodesKey) then rest + [line] else rest
  }

  predicate Malformed(line: string) {
    Contains(line, NodesKey) && NodesField(line).None?
  }

  /**
   * Extraction succeeds exactly when no `Nodes=` line is malformed; then it
   * has one entry per `Nodes=` line, in order, each that line's field.
   */
  lemma {:induction false} ExtractionShape(lines: seq<string>)
    ensures DeviceGuidsPerSwitch(lines).Success? <==> forall i :: 0 <= i < |lines| ==> !Malformed(lines[i])
    ensures DeviceGuidsPerSwitch(lines).Success? ==>
      var xs := DeviceGuidsPerSwitch(lines).value;
      |xs| == |NodesLines(lines)| &&
      forall k :: 0 <= k < |xs| ==> NodesField(NodesLines(lines)[k]) == Some(xs[k])
  {
    if |lines| > 0 {
      var init := lines[..|lines| - 1];
      ExtractionShape(init);
      forall i | 0 <= i < |init| ensures init[i] == lines[i] { }
    }
  }

  /** A failure names the first malformed `Nodes=` line and its text. */
  lemma {:induction false} ExtractionFailure(lines: seq<string>)
    requires DeviceGuidsPerSwitch(lines).Failure?
    ensures var e := DeviceGuidsPerSwitch(lines).error;
      && e.MalformedLine?
      && e.index < |lines| && e.text == lines[e.index] && Malformed(e.text)
      && forall j :: 0 <= j < e.index ==> !Malformed(lines[j])
  {
    var init := lines[..|lines| - 1];
    forall j | 0 <= j < |init| ensures init[j] == lines[j] { }
    match DeviceGuidsPerSwitch(init)
    case Failure(e0) =>
      ExtractionFailure(init);
    case Success(acc) =>
      ExtractionShape(init);
  }

  /** A well-formed `SwitchName=<sw> Nodes=<ids>` line, with or without its newline, yields `ids`. */
  lemma DeclarationField(sw: string, ids: string, newline: bool)
    requires NoSpace(sw) && NoSpace(ids) && '=' !in ids
    ensures var line := "SwitchName=" + sw + " Nodes=" + ids;
      NodesField(if newline then line + "\n" else line) == Some(ids)
  {
    var first := "SwitchName=" + sw;
    var second := "Nodes=" + ids;
    var line := first + " " + second;
    assert line == "SwitchName=" + sw + " Nodes=" + ids;
    var text := if newline then line + "\n" else line;
    assert second[|second| - 1] == if ids == [] then '=' else ids[|ids| - 1];
    StripDeclaration(first, second, newline);
    SplitFields(first, second);
    SplitClause(ids);
    assert Strip(text) == line;
    assert Split(Strip(text), ' ') == [first, second];
  }

  lemma StripDeclaration(first: string, second: string, newline: bool)
    requires |first| > 0 && |second| > 0 && !IsSpace(first[0]) && !IsSpace(second[|second| - 1])
    ensures Strip(if newline then first + " " + second + "\n" else first + " " + second) == first + " " + second
  {
    var line := first + " " + second;
    assert line[0] == first[0] && line[|line| - 1] == second[|second| - 1];
    if newline {
      StripNewline(line);
    } else {
      StripTrimmed(line);
    }
  }

  lemma SplitFields(first: string, second: string)
    requires ' ' !in first && ' ' !in second
    ensures Split(first + " " + second, ' ') == [first, second]
  {
    assert first + " " + second == Join([first, second], ' ');
    SplitJoin([first, second], ' ');
  }

  lemma SplitClause(ids: string)
    requires '=' !in ids
    ensures Split("Nodes=" + ids, '=') == ["Nodes", ids]
  {
    assert "Nodes=" + ids == "Nodes" + ['='] + ids;
    SplitFirst("Nodes", ids, '=');
    SplitNoSep(ids, '=');
  }
}
