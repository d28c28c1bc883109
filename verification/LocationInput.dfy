/** The list logic of the route form (components/LocationInput.tsx): the
    list of stop fields, the switch between the field list and the one-text
    bulk view, what a submission sends, and when submitting is allowed.
    Each handler is a function from the form's state to its next state.
    `ws` says which characters `trim` removes. */
module LocationInput {
  import opened Wrappers
  import opened Text

  datatype Mode = ListMode | BulkMode

  /** The form's state: the view, the start and end fields, the stop
      fields, and the bulk text (one location per line). */
  datatype Form = Form(mode: Mode, start: string, end: string, inputs: seq<string>, bulkText: string)

  /** The state the form is created with. */
  const InitialForm: Form := Form(ListMode, "", "", [""], "")

  /** The arguments of `onResolve(start, stops, end)`. */
  datatype Submission = Submission(start: string, stops: seq<string>, end: string)

  /** `handleInputChange(index, value)`: only the edited field changes. */
  function InputChange(f: Form, index: nat, value: string): (r: Form)
    requires index < |f.inputs|
    ensures |r.inputs| == |f.inputs|
    ensures r.inputs[index] == value
    ensures forall j | 0 <= j < |f.inputs| && j != index :: r.inputs[j] == f.inputs[j]
    ensures r.mode == f.mode && r.start == f.start && r.end == f.end && r.bulkText == f.bulkText
  {
    f.(inputs := f.inputs[index := value])
  }

  /** `addField`: one more, empty, stop field at the end. */
  function AddField(f: Form): (r: Form)
    ensures |r.inputs| == |f.inputs| + 1
    ensures r.inputs[..|f.inputs|] == f.inputs && r.inputs[|f.inputs|] == ""
    ensures r.mode == f.mode && r.start == f.start && r.end == f.end && r.bulkText == f.bulkText
  {
    f.(inputs := f.inputs + [""])
  }

  /** `s.filter((_, i) => i !== index)`: every element but the one at
      `index`; an index out of range removes nothing. */
  function Without<T>(s: seq<T>, index: int): (r: seq<T>)
    ensures 0 <= index < |s| ==> r == s[..index] + s[index + 1..]
    ensures !(0 <= index < |s|) ==> r == s
    decreases |s|
  {
    if |s| == 0 then []
    else (if index == 0 then [] else [s[0]]) + Without(s[1..], index - 1)
  }

  /** `removeField(index)`: the field goes, the others keep their order,
      and the last field is replaced by one empty field rather than removed. */
  function RemoveField(f: Form, index: int): (r: Form)
    ensures |r.inputs| > 0
    ensures 0 <= index < |f.inputs| && |f.inputs| > 1 ==> r.inputs == f.inputs[..index] + f.inputs[index + 1..]
    ensures 0 <= index < |f.inputs| && |f.inputs| == 1 ==> r.inputs == [""]
    ensures !(0 <= index < |f.inputs|) && |f.inputs| > 0 ==> r.inputs == f.inputs
    ensures r.mode == f.mode && r.start == f.start && r.end == f.end && r.bulkText == f.bulkText
  {
    var kept := Without(f.inputs, index);
    f.(inputs := if |kept| > 0 then kept else [""])
  }

  /** Adding a field and removing it again restores the form. */
  lemma RemoveAddedField(f: Form)
    requires |f.inputs| > 0
    ensures RemoveField(AddField(f), |f.inputs|) == f
  {
    assert (f.inputs + [""])[..|f.inputs|] == f.inputs;
  }

  /** The non-blank lines of `text`: `text.split('\n').filter(l => l.trim() !== '')`. */
  function Lines(ws: char -> bool, text: string): (r: seq<string>)
    ensures forall i | 0 <= i < |r| :: !Blank(ws, r[i])
  {
    DropBlank(ws, Split(text, '\n'))
  }

  /** The lines strictly between the first and the last. */
  function Middle(lines: seq<string>): seq<string>
    requires |lines| >= 2
  {
    lines[1..|lines| - 1]
  }

  /** The list-view branch of `toggleMode`. */
  function ToBulk(ws: char -> bool, f: Form): Form
  {
    var all := DropEmpty(TrimAll(ws, [f.start] + f.inputs + [f.end]));
    f.(bulkText := Join(all, '\n'), mode := BulkMode)
  }

  /** The bulk-view branch of `toggleMode`. */
  function ToList(ws: char -> bool, f: Form): Form
  {
    var lines := Lines(ws, f.bulkText);
    var g :=
      if |lines| > 0 then
        if |lines| > 1 then
          f.(start := lines[0], end := lines[|lines| - 1],
             inputs := if |Middle(lines)| > 0 then Middle(lines) else [""])
        else
          f.(start := lines[0], end := "", inputs := [""])
      else f;
    g.(mode := ListMode)
  }

  /** `toggleMode`. From the list view: the bulk text becomes the trimmed,
      non-blank fields, start first and end last, one per line. From the bulk
      view: the first line becomes the start, the last (when there are two or
      more) the end, and the lines between the stops; with no line at all the
      fields keep their values. */
  function ToggleMode(ws: char -> bool, f: Form): Form
  {
    match f.mode
    case ListMode => ToBulk(ws, f)
    case BulkMode => ToList(ws, f)
  }

  /** List to bulk: the bulk text lists the trimmed non-blank fields, start
      first, end last, and the list fields are kept. */
  lemma ListToBulk(ws: char -> bool, f: Form)
    requires f.mode == ListMode
    ensures var r := ToggleMode(ws, f);
            && r.mode == BulkMode
            && r.bulkText == Join(TrimAll(ws, DropBlank(ws, [f.start] + f.inputs + [f.end])), '\n')
            && r.start == f.start && r.end == f.end && r.inputs == f.inputs
  {
    TrimThenDropEmpty(ws, [f.start] + f.inputs + [f.end]);
  }

  /** Bulk to list: the view becomes the list; the fields are taken from
      the non-blank lines as described at `ToggleMode`; the bulk text stays. */
  lemma BulkToList(ws: char -> bool, f: Form)
    requires f.mode == BulkMode
    ensures var r := ToggleMode(ws, f);
            var lines := Lines(ws, f.bulkText);
            && r.mode == ListMode
            && r.bulkText == f.bulkText
            && (|lines| == 0 ==> r.start == f.start && r.end == f.end && r.inputs == f.inputs)
            && (|lines| == 1 ==> r.start == lines[0] && r.end == "" && r.inputs == [""])
            && (|lines| >= 2 ==>
                  && r.start == lines[0] && r.end == lines[|lines| - 1]
                  && (|lines| == 2 ==> r.inputs == [""])
                  && (|lines| > 2 ==> [r.start] + r.inputs + [r.end] == lines))
  {
    var lines := Lines(ws, f.bulkText);
    if |lines| > 2 {
      assert lines == [lines[0]] + Middle(lines) + [lines[|lines| - 1]];
    }
  }

  /** Fields that are trimmed, filled, and on one line each survive a switch
      to the bulk view and back unchanged (the bulk text keeps what the
      switch wrote into it). */
  lemma ListBulkListRoundTrip(ws: char -> bool, f: Form)
    requires f.mode == ListMode
    requires |f.inputs| > 0
    requires forall i | 0 <= i < |[f.start] + f.inputs + [f.end]| ::
               var x := ([f.start] + f.inputs + [f.end])[i];
               !Blank(ws, x) && IsTrimmed(ws, x) && '\n' !in x
    ensures var r := ToggleMode(ws, ToggleMode(ws, f));
            r.mode == ListMode && r.start == f.start && r.end == f.end && r.inputs == f.inputs
  {
    var all := [f.start] + f.inputs + [f.end];
    var b := ToggleMode(ws, f);
    BulkLinesOfFields(ws, f, all);
    BulkToList(ws, b);
    var r := ToggleMode(ws, b);
    assert [r.start] + r.inputs + [r.end] == all;
    assert r.inputs == all[1..|all| - 1];
  }

  /** The lines of the bulk text written from filled, trimmed, one-line
      fields are those fields. */
  lemma BulkLinesOfFields(ws: char -> bool, f: Form, all: seq<string>)
    requires f.mode == ListMode
    requires all == [f.start] + f.inputs + [f.end]
    requires forall i | 0 <= i < |all| :: !Blank(ws, all[i]) && IsTrimmed(ws, all[i]) && '\n' !in all[i]
    ensures ToggleMode(ws, f).mode == BulkMode
    ensures Lines(ws, ToggleMode(ws, f).bulkText) == all
  {
    ListToBulk(ws, f);
    assert DropBlank(ws, all) == all by {
      DropBlankKeepsFilled(ws, all);
    }
    assert TrimAll(ws, all) == all by {
      TrimAllFixed(ws, all);
    }
    assert Split(Join(all, '\n'), '\n') == all by {
      SplitJoin(all, '\n');
    }
  }

  /** Bulk to list and back normalises the bulk text to its trimmed non-blank
      lines, provided it has at least one. */
  lemma BulkListBulkNormalises(ws: char -> bool, f: Form)
    requires f.mode == BulkMode
    requires |Lines(ws, f.bulkText)| > 0
    ensures ToggleMode(ws, ToggleMode(ws, f)).bulkText == Join(TrimAll(ws, Lines(ws, f.bulkText)), '\n')
    ensures ToggleMode(ws, ToggleMode(ws, f)).mode == BulkMode
  {
    var lines := Lines(ws, f.bulkText);
    var g := ToggleMode(ws, f);
    BulkToList(ws, f);
    ListToBulk(ws, g);
    FieldsOfLines(ws, lines, g.start, g.inputs, g.end);
  }

  /** The fields a switch to the list view fills from `lines` hold, once
      blank ones are dropped, exactly `lines`. */
  lemma FieldsOfLines(ws: char -> bool, lines: seq<string>, start: string, inputs: seq<string>, end: string)
    requires |lines| > 0
    requires forall i | 0 <= i < |lines| :: !Blank(ws, lines[i])
    requires |lines| == 1 ==> start == lines[0] && end == "" && inputs == [""]
    requires |lines| == 2 ==> start == lines[0] && end == lines[1] && inputs == [""]
    requires |lines| > 2 ==> [start] + inputs + [end] == lines
    ensures DropBlank(ws, [start] + inputs + [end]) == lines
  {
    assert Blank(ws, "");
    DropBlankAppend(ws, [start] + inputs, [end]);
    DropBlankAppend(ws, [start], inputs);
    if |lines| > 2 {
      DropBlankKeepsFilled(ws, lines);
    } else if |lines| == 2 {
      assert lines == [lines[0]] + [lines[1]];
    }
  }

  /** `handleSubmit`: what `onResolve` is called with, or `None` when it is
      not called. */
  function Submit(ws: char -> bool, f: Form): (r: Option<Submission>)
    ensures r.Some? ==> forall i | 0 <= i < |r.value.stops| :: !Blank(ws, r.value.stops[i])
  {
    match f.mode
    case ListMode => Some(Submission(f.start, DropBlank(ws, f.inputs), f.end))
    case BulkMode =>
      var lines := Lines(ws, f.bulkText);
      if |lines| >= 2 then Some(Submission(lines[0], Middle(lines), lines[|lines| - 1]))
      else if |lines| == 1 then Some(Submission(lines[0], [], ""))
      else None
  }

  /** From the list view the stops sent are the filled fields in their
      order, and start and end go as typed. */
  lemma SubmitFromList(ws: char -> bool, f: Form)
    requires f.mode == ListMode
    ensures Submit(ws, f).Some?
    ensures var s := Submit(ws, f).value;
            && s.start == f.start && s.end == f.end
            && (forall i | 0 <= i < |s.stops| :: !Blank(ws, s.stops[i]))
            && (forall x :: multiset(s.stops)[x] == if Blank(ws, x) then 0 else multiset(f.inputs)[x])
            && (forall k | 0 <= k <= |f.inputs| ::
                  s.stops == DropBlank(ws, f.inputs[..k]) + DropBlank(ws, f.inputs[k..]))
  {
    forall x ensures multiset(DropBlank(ws, f.inputs))[x] == if Blank(ws, x) then 0 else multiset(f.inputs)[x] {
      FilterCount(y => !Blank(ws, y), f.inputs, x);
    }
    forall k | 0 <= k <= |f.inputs|
      ensures DropBlank(ws, f.inputs) == DropBlank(ws, f.inputs[..k]) + DropBlank(ws, f.inputs[k..])
    {
      assert f.inputs == f.inputs[..k] + f.inputs[k..];
      DropBlankAppend(ws, f.inputs[..k], f.inputs[k..]);
    }
  }

  /** From the bulk view: two lines or more send first, middle, last; one
      line sends it as start with no stops and an empty end; no line sends
      nothing. */
  lemma SubmitFromBulk(ws: char -> bool, f: Form)
    requires f.mode == BulkMode
    ensures var lines := Lines(ws, f.bulkText);
            && (|lines| == 0 <==> Submit(ws, f).None?)
            && (|lines| >= 2 ==>
                  && Submit(ws, f).Some?
                  && [Submit(ws, f).value.start] + Submit(ws, f).value.stops + [Submit(ws, f).value.end] == lines)
            && (|lines| == 1 ==> Submit(ws, f) == Some(Submission(lines[0], [], "")))
  {
    var lines := Lines(ws, f.bulkText);
    if |lines| >= 2 {
      assert lines == [lines[0]] + Middle(lines) + [lines[|lines| - 1]];
    }
  }

  /** Whenever the bulk text has a non-blank line, submitting it sends the
      same as switching to the list view and submitting there. */
  lemma SubmitSurvivesToggle(ws: char -> bool, f: Form)
    requires f.mode == BulkMode
    requires |Lines(ws, f.bulkText)| > 0
    ensures Submit(ws, ToggleMode(ws, f)) == Submit(ws, f)
  {
    var lines := Lines(ws, f.bulkText);
    assert Blank(ws, "");
    assert DropBlank(ws, [""]) == [];
    if |lines| >= 2 && |Middle(lines)| > 0 {
      DropBlankKeepsFilled(ws, Middle(lines));
    }
  }

  /** `isSubmitDisabled`. */
  function SubmitDisabled(ws: char -> bool, isLoading: bool, f: Form): (r: bool)
    ensures r <==> isLoading || (f.mode == ListMode && Blank(ws, f.start)) || (f.mode == BulkMode && Blank(ws, f.bulkText))
  {
    isLoading || (if f.mode == ListMode then Trim(ws, f.start) == "" else Trim(ws, f.bulkText) == "")
  }

  /** When `trim` removes newlines, an enabled submit button always reaches
      `onResolve`: non-blank bulk text has a non-blank line. */
  lemma EnabledSubmitResolves(ws: char -> bool, isLoading: bool, f: Form)
    requires ws('\n')
    requires !SubmitDisabled(ws, isLoading, f)
    ensures Submit(ws, f).Some?
  {
    if f.mode == BulkMode {
      FilledTextHasFilledLine(ws, f.bulkText);
    }
  }
}
