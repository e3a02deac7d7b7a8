/** The upload form's state, shared by its two client variants: the files
    chosen, whether an upload is running, its progress, and the error and
    success notices. */
module UploadFormState {
  import opened Wrappers
  import opened Strings

  /** A chosen file, as the form sends it. */
  datatype SelectedFile = SelectedFile(name: string, mimetype: string, size: nat)

  /** A progress figure as `Math.round` leaves it: a whole percentage, or
      the `NaN` and `Infinity` a division by an unknown or zero total gives. */
  datatype Percent = Finite(n: nat) | NaN | Infinity

  /** How a progress figure is written into the label. */
  function PercentText(p: Percent): string {
    match p
    case Finite(n) => NatToString(n)
    case NaN => "NaN"
    case Infinity => "Infinity"
  }

  datatype FormState = FormState(
    files: seq<SelectedFile>,
    uploading: bool,
    progress: Percent,
    error: Option<string>,
    success: bool)

  const InitialForm: FormState := FormState([], false, Finite(0), None, false)

  const SelectFirst: string := "Please select at least one file"
  const TimeoutText: string := "Upload timeout. Please try with smaller files."
  const NetworkText: string := "Network error. Please check your connection."
  const DefaultText: string := "Upload failed. Please try again."
  const UnexpectedText: string := "An unexpected error occurred"
  const Aborted: string := "ECONNABORTED"

  /** `Math.round(loaded * 100 / total)` for a positive total, computed
      exactly: the nearest whole percentage, halves rounded up. */
  function RoundPercent(loaded: nat, total: nat): (r: nat)
    requires total > 0
    ensures 2 * total * r <= 200 * loaded + total < 2 * total * r + 2 * total
    ensures loaded <= total ==> r <= 100
  {
    RoundBounds(loaded, total);
    (200 * loaded + total) / (2 * total)
  }

  lemma RoundBounds(loaded: nat, total: nat)
    requires total > 0
    ensures var r := (200 * loaded + total) / (2 * total);
      2 * total * r <= 200 * loaded + total < 2 * total * r + 2 * total
      && (loaded <= total ==> r <= 100)
  {
    var a := 200 * loaded + total;
    var q := 2 * total;
    var r := a / q;
    DivBounds(a, q);
    if loaded <= total && r > 100 {
      MulMonotone(q, 101, r);
    }
  }

  lemma DivBounds(a: nat, q: nat)
    requires q > 0
    ensures q * (a / q) <= a < q * (a / q) + q
  {
    assert a == q * (a / q) + a % q;
  }

  lemma MulMonotone(x: nat, y: nat, z: nat)
    requires y <= z
    ensures x * y <= x * z
  {
    assert x * z - x * y == x * (z - y);
  }

  /** What the form learns from a failed request: the reply body's `error`
      field, the error code and the error message. */
  datatype ErrorInfo = ErrorInfo(dataError: Option<string>, code: Option<string>, message: string)

  /** A failed upload: a request error, or anything else thrown. */
  datatype UploadFailure = RequestError(info: ErrorInfo) | OtherError(message: string)

  /** A guard and the message it selects. */
  datatype Rule = Rule(applies: bool, message: string)

  /** The message of the first rule that applies, or the fallback. */
  function FirstApplicable(rules: seq<Rule>, fallback: string): string
    decreases |rules|
  {
    if |rules| == 0 then fallback
    else if rules[0].applies then rules[0].message
    else FirstApplicable(rules[1..], fallback)
  }

  /** A rule that applies, with none before it applying, decides. */
  lemma {:induction false} FirstApplicableWins(rules: seq<Rule>, fallback: string, i: nat)
    requires i <= |rules|
    requires forall k :: 0 <= k < i ==> !rules[k].applies
    ensures i < |rules| && rules[i].applies ==> FirstApplicable(rules, fallback) == rules[i].message
    ensures i == |rules| ==> FirstApplicable(rules, fallback) == fallback
    decreases i
  {
    if i > 0 {
      assert forall k :: 0 <= k < i - 1 ==> rules[1..][k] == rules[k + 1];
      FirstApplicableWins(rules[1..], fallback, i - 1);
    }
  }

  predicate HasDataError(e: ErrorInfo) {
    e.dataError.Some? && e.dataError.value != ""
  }

  /** The priority the form gives to what it knows about a failure. */
  function MessageRules(e: ErrorInfo): seq<Rule> {
    [ Rule(HasDataError(e), e.dataError.GetOr("")),
      Rule(e.code == Some(Aborted), TimeoutText),
      Rule(Contains(e.message, "Network Error"), NetworkText) ]
  }

  /** The message a request error shows. */
  function SelectMessage(e: ErrorInfo): (r: string)
    ensures r != ""
    ensures r == e.dataError.GetOr("") || r in {TimeoutText, NetworkText, DefaultText}
  {
    if HasDataError(e) then e.dataError.value
    else if e.code == Some(Aborted) then TimeoutText
    else if Contains(e.message, "Network Error") then NetworkText
    else DefaultText
  }

  /** The priority spelled out: the server's `error` field beats the code,
      which beats the message text, which beats the default. */
  lemma MessagePriority(e: ErrorInfo)
    ensures SelectMessage(e) == FirstApplicable(MessageRules(e), DefaultText)
    ensures HasDataError(e) ==> SelectMessage(e) == e.dataError.value
    ensures !HasDataError(e) && e.code == Some(Aborted) ==> SelectMessage(e) == TimeoutText
    ensures !HasDataError(e) && e.code != Some(Aborted) && Contains(e.message, "Network Error")
            ==> SelectMessage(e) == NetworkText
    ensures !HasDataError(e) && e.code != Some(Aborted) && !Contains(e.message, "Network Error")
            ==> SelectMessage(e) == DefaultText
  {
    var rules := MessageRules(e);
    if HasDataError(e) {
      FirstApplicableWins(rules, DefaultText, 0);
    } else if e.code == Some(Aborted) {
      FirstApplicableWins(rules, DefaultText, 1);
    } else if Contains(e.message, "Network Error") {
      FirstApplicableWins(rules, DefaultText, 2);
    } else {
      FirstApplicableWins(rules, DefaultText, 3);
    }
  }

  /** `files.filter((_, i) => i !== index)`, from position `from` on. */
  function FilterIndex(files: seq<SelectedFile>, index: int, from: nat): (r: seq<SelectedFile>)
    requires from <= |files|
    decreases |files| - from
  {
    if from == |files| then []
    else (if from == index then [] else [files[from]]) + FilterIndex(files, index, from + 1)
  }

  lemma {:induction false} FilterIndexSlices(files: seq<SelectedFile>, index: int, from: nat)
    requires from <= |files|
    ensures from <= index < |files| ==> FilterIndex(files, index, from) == files[from..index] + files[index + 1..]
    ensures (index < from || index >= |files|) ==> FilterIndex(files, index, from) == files[from..]
    decreases |files| - from
  {
    if from < |files| {
      FilterIndexSlices(files, index, from + 1);
      if from == index {
        assert files[from..index] == [];
      } else {
        assert files[from..] == [files[from]] + files[from + 1..];
        if from < index < |files| {
          assert files[from..index] == [files[from]] + files[from + 1..index];
        }
      }
    }
  }

  /** `removeFile`: position `index` is dropped and the rest keep their
      order; an index outside the list leaves it as it is. */
  function RemoveAt(files: seq<SelectedFile>, index: int): (r: seq<SelectedFile>)
    ensures 0 <= index < |files| ==> r == files[..index] + files[index + 1..]
    ensures (index < 0 || index >= |files|) ==> r == files
  {
    FilterIndexSlices(files, index, 0);
    FilterIndex(files, index, 0)
  }

  /** Removing a file takes exactly one copy of it out of the selection. */
  lemma RemoveAtTakesOne(files: seq<SelectedFile>, index: int)
    requires 0 <= index < |files|
    ensures |RemoveAt(files, index)| == |files| - 1
    ensures multiset(RemoveAt(files, index)) + multiset{files[index]} == multiset(files)
  {
    assert files == files[..index] + [files[index]] + files[index + 1..];
  }

  /** Choosing files replaces the selection and clears both notices. */
  function ChooseFiles(s: FormState, selected: seq<SelectedFile>): (t: FormState)
    ensures t.files == selected && t.error == None && !t.success
    ensures t.uploading == s.uploading && t.progress == s.progress
  {
    s.(files := selected, error := None, success := false)
  }

  /** A state, and the files a request carried if one was sent. */
  datatype Submitted = Submitted(state: FormState, sent: Option<seq<SelectedFile>>)

  /** The start of `handleSubmit`: with nothing chosen the form asks for a
      file and sends nothing; otherwise it sends every chosen file and
      shows an upload at 0%. */
  function Submit(s: FormState): (r: Submitted)
    ensures r.sent.None? <==> |s.files| == 0
    ensures r.sent.None? ==> r.state == s.(error := Some(SelectFirst))
    ensures r.sent.Some? ==> r.sent.value == s.files && |r.sent.value| > 0
    ensures r.sent.Some? ==> r.state.uploading && r.state.error == None && r.state.progress == Finite(0)
    ensures r.state.files == s.files && r.state.success == s.success
  {
    if |s.files| == 0 then Submitted(s.(error := Some(SelectFirst)), None)
    else Submitted(s.(uploading := true, error := None, progress := Finite(0)), Some(s.files))
  }

  /** A successful upload empties the selection, shows the success notice
      and resets progress; the `finally` ends the upload. */
  function Succeed(s: FormState): (t: FormState)
    ensures t.files == [] && t.success && t.progress == Finite(0) && !t.uploading
    ensures t.error == s.error
  {
    s.(files := [], success := true, progress := Finite(0), uploading := false)
  }

  /** A failed upload shows the message and resets progress; the selection
      is kept and the `finally` ends the upload. */
  function Fail(s: FormState, message: string): (t: FormState)
    ensures t.error == Some(message) && t.progress == Finite(0) && !t.uploading
    ensures t.files == s.files && t.success == s.success
  {
    s.(error := Some(message), progress := Finite(0), uploading := false)
  }

  /** The submit button is disabled during an upload and with nothing chosen. */
  predicate Disabled(s: FormState) {
    s.uploading || |s.files| == 0
  }

  /** What reaches the form. */
  datatype FormEvent =
    | Choose(selected: Option<seq<SelectedFile>>)
    | SubmitPressed
    | Progress(loaded: nat, total: Option<nat>)
    | Succeeded
    | Failed(failure: UploadFailure)
    | SuccessExpired
    | Remove(index: int)

  /** A form state and every request sent so far. */
  datatype Session = Session(state: FormState, requests: seq<seq<SelectedFile>>)

  /** The label while uploading: `Uploading... <p>%`. */
  function UploadingLabel(p: Percent): string {
    "Uploading... " + PercentText(p) + "%"
  }
}

/** The JavaScript variant of the form. */
module UploadFormJs {
  import opened Wrappers
  import opened Strings
  import opened UploadFormState

  /** `Math.round(loaded * 100 / total)` with no guard on `total`, as
      written: an unknown total gives `NaN`, a zero total `NaN` or
      `Infinity`. */
  function ProgressAsWritten(loaded: nat, total: Option<nat>): (p: Percent)
    ensures total.None? ==> p == NaN
    ensures total == Some(0) ==> p == (if loaded == 0 then NaN else Infinity)
    ensures total.Some? && total.value > 0 ==> p == Finite(RoundPercent(loaded, total.value))
  {
    match total
    case None => NaN
    case Some(t) =>
      if t == 0 then (if loaded == 0 then NaN else Infinity)
      else Finite(RoundPercent(loaded, t))
  }

  /** A request error and any other thrown error go through the same
      message selection; a plain `Error` has neither reply nor code. */
  function FailureMessage(f: UploadFailure): (r: string)
    ensures f.RequestError? ==> r == SelectMessage(f.info)
    ensures f.OtherError? ==> r == SelectMessage(ErrorInfo(None, None, f.message))
  {
    match f
    case RequestError(info) => SelectMessage(info)
    case OtherError(message) => SelectMessage(ErrorInfo(None, None, message))
  }

  /** One event. `Array.from(null)` throws, so a null file list leaves the
      state as it was. */
  function Step(s: Session, e: FormEvent): Session {
    match e
    case Choose(selected) =>
      if selected.None? then s else s.(state := ChooseFiles(s.state, selected.value))
    case SubmitPressed =>
      var r := Submit(s.state);
      Session(r.state, if r.sent.Some? then s.requests + [r.sent.value] else s.requests)
    case Progress(loaded, total) => s.(state := s.state.(progress := ProgressAsWritten(loaded, total)))
    case Succeeded => s.(state := Succeed(s.state))
    case Failed(f) => s.(state := Fail(s.state, FailureMessage(f)))
    case SuccessExpired => s.(state := s.state.(success := false))
    case Remove(index) => s.(state := s.state.(files := RemoveAt(s.state.files, index)))
  }

  /** The button label: `Upload N File`, plus `s` unless N is 1, or the
      upload's progress while one runs. */
  function Label(s: FormState): (r: string)
    ensures s.uploading ==> r == UploadingLabel(s.progress)
    ensures !s.uploading ==> StartsWith(r, "Upload " + NatToString(|s.files|) + " File")
    ensures !s.uploading ==> (r[|r| - 1] == 's' <==> |s.files| != 1)
  {
    if s.uploading then UploadingLabel(s.progress)
    else "Upload " + NatToString(|s.files|) + " File" + (if |s.files| != 1 then "s" else "")
  }

  /** As written, a progress event without a known total puts `NaN` into
      the label, and one with a zero total `Infinity`. */
  lemma UnguardedProgressShowsNaN(s: Session)
    requires s.state.uploading
    ensures Step(s, Progress(0, None)).state.progress == NaN
    ensures Label(Step(s, Progress(0, None)).state) == "Uploading... NaN%"
    ensures Label(Step(s, Progress(5, Some(0))).state) == "Uploading... Infinity%"
  {
  }
}

/** The TypeScript variant of the form: a null file list counts as none,
    progress is only taken from events with a non-zero total, and errors
    that are not request errors get a message of their own. */
module UploadFormTsx {
  import opened Wrappers
  import opened Strings
  import opened UploadFormState

  /** Progress with the guard on `total`: an unknown or zero total leaves
      the figure as it was. */
  function GuardedProgress(current: Percent, loaded: nat, total: Option<nat>): (p: Percent)
    ensures total.None? || total == Some(0) ==> p == current
    ensures total.Some? && total.value > 0 ==> p == Finite(RoundPercent(loaded, total.value))
  {
    if total.Some? && total.value > 0 then Finite(RoundPercent(loaded, total.value)) else current
  }

  /** Request errors share the JavaScript variant's selection; anything
      else thrown gets the generic text. */
  function FailureMessage(f: UploadFailure): (r: string)
    ensures f.RequestError? ==> r == SelectMessage(f.info)
    ensures f.OtherError? ==> r == UnexpectedText
  {
    match f
    case RequestError(info) => SelectMessage(info)
    case OtherError(_) => UnexpectedText
  }

  function Step(s: Session, e: FormEvent): Session {
    match e
    case Choose(selected) => s.(state := ChooseFiles(s.state, selected.GetOr([])))
    case SubmitPressed =>
      var r := Submit(s.state);
      Session(r.state, if r.sent.Some? then s.requests + [r.sent.value] else s.requests)
    case Progress(loaded, total) =>
      s.(state := s.state.(progress := GuardedProgress(s.state.progress, loaded, total)))
    case Succeeded => s.(state := Succeed(s.state))
    case Failed(f) => s.(state := Fail(s.state, FailureMessage(f)))
    case SuccessExpired => s.(state := s.state.(success := false))
    case Remove(index) => s.(state := s.state.(files := RemoveAt(s.state.files, index)))
  }

  function Run(s: Session, events: seq<FormEvent>): Session
    decreases |events|
  {
    if |events| == 0 then s else Run(Step(s, events[0]), events[1..])
  }

  /** The progress figure is a whole percentage, at most 100 while no
      event reports more sent than its total. */
  predicate SoundProgress(s: FormState) {
    s.progress.Finite? && s.progress.n <= 100
  }

  predicate NoOvershoot(events: seq<FormEvent>) {
    forall k :: 0 <= k < |events| && events[k].Progress? && events[k].total.Some?
      ==> events[k].loaded <= events[k].total.value
  }

  /** With the guard, progress is never `NaN` or `Infinity`, and stays
      within 0..100, whatever events arrive. */
  lemma {:induction false} ProgressStaysSound(s: Session, events: seq<FormEvent>)
    requires SoundProgress(s.state) && NoOvershoot(events)
    ensures SoundProgress(Run(s, events).state)
    decreases |events|
  {
    if |events| > 0 {
      assert SoundProgress(Step(s, events[0]).state);
      assert NoOvershoot(events[1..]) by {
        assert forall k :: 0 <= k < |events| - 1 ==> events[1..][k] == events[k + 1];
      }
      ProgressStaysSound(Step(s, events[0]), events[1..]);
    }
  }

  /** No request is ever sent without files, and every request carries the
      selection as it stood when the button was pressed. */
  lemma {:induction false} RequestsNeverEmpty(s: Session, events: seq<FormEvent>)
    requires forall k :: 0 <= k < |s.requests| ==> |s.requests[k]| > 0
    ensures forall k :: 0 <= k < |Run(s, events).requests| ==> |Run(s, events).requests[k]| > 0
    ensures |s.requests| <= |Run(s, events).requests| && Run(s, events).requests[..|s.requests|] == s.requests
    decreases |events|
  {
    if |events| > 0 {
      var t := Step(s, events[0]);
      assert t.requests[..|s.requests|] == s.requests;
      RequestsNeverEmpty(t, events[1..]);
      var u := Run(t, events[1..]);
      assert u.requests[..|s.requests|] == u.requests[..|t.requests|][..|s.requests|];
    }
  }

  /** An upload ends, on either path, with no upload running and progress
      reset; success shows the notice and empties the selection, failure
      shows the message and keeps the selection. */
  lemma UploadSettles(s: Session, f: UploadFailure)
    ensures var t := Step(s, Succeeded).state;
      !t.uploading && t.progress == Finite(0) && t.success && t.files == []
    ensures var t := Step(s, Failed(f)).state;
      !t.uploading && t.progress == Finite(0) && t.files == s.state.files
      && t.error == Some(if f.RequestError? then SelectMessage(f.info) else UnexpectedText)
  {
  }

  /** A null file list is an empty selection. */
  lemma NullFileListIsEmpty(s: Session)
    ensures Step(s, Choose(None)).state.files == []
    ensures Disabled(Step(s, Choose(None)).state)
  {
  }

  /** The button reads `Upload` when idle and shows progress otherwise. */
  function Label(s: FormState): (r: string)
    ensures s.uploading ==> r == UploadingLabel(s.progress)
    ensures !s.uploading ==> r == "Upload"
  {
    if s.uploading then UploadingLabel(s.progress) else "Upload"
  }

  /** With a sound figure, the label shows a whole percentage. */
  lemma LabelShowsNumber(s: FormState)
    requires s.uploading && SoundProgress(s)
    ensures Label(s) == "Uploading... " + NatToString(s.progress.n) + "%"
  {
  }
}
