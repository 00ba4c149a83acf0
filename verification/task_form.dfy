/** The add-task form of frontend/src/components/TaskForm.js: the text box, the
    `isSubmitting` flag, title validation, the add button's enabled state and
    the wording of errors. `handleAddTask` is asynchronous; it is modelled as
    its two halves, up to the awaited `onAddTask` call (`Submit`) and after it
    settles (`Settle`), so that what a second click sees in between is visible. */
module TaskForm {
  import opened Text
  import opened Tasks

  /** The text in the box and whether a submission is in flight. */
  datatype Form = Form(input: string, isSubmitting: bool)

  datatype Validation = Accepted | Rejected(message: string)

  /** How the awaited `onAddTask(title)` settled. */
  datatype AddOutcome = Resolved | Threw(message: string)

  /** The form afterwards, the titles passed to `onAddTask`, and the error shown. */
  datatype Run = Run(form: Form, calls: seq<string>, notice: Option<string>)

  const MIN_LENGTH: nat := 2
  const MAX_LENGTH: nat := 255

  const EMPTY_MESSAGE := "❌ Por favor, ingresa una tarea"
  const SHORT_MESSAGE := "📝 La tarea debe tener al menos 2 caracteres"
  const LONG_MESSAGE := "📏 La tarea es demasiado larga (máximo 255 caracteres)"
  const GENERIC_ERROR := "❌ Error al agregar la tarea"
  const NETWORK_ERROR := "🌐 Error de conexión. Verifica tu internet."
  const SERVER_ERROR := "⚙️ Error del servidor. Intenta más tarde."

  /** `validateInput(title)` on the trimmed title: the empty check comes first,
      then the lower bound, then the upper bound. */
  function ValidateInput(title: string): (v: Validation)
    ensures v.Accepted? <==> MIN_LENGTH <= |title| <= MAX_LENGTH
    ensures title == "" ==> v == Rejected(EMPTY_MESSAGE)
    ensures |title| == 1 ==> v == Rejected(SHORT_MESSAGE)
    ensures |title| > MAX_LENGTH ==> v == Rejected(LONG_MESSAGE)
  {
    if title == "" then Rejected(EMPTY_MESSAGE)
    else if |title| < MIN_LENGTH then Rejected(SHORT_MESSAGE)
    else if |title| > MAX_LENGTH then Rejected(LONG_MESSAGE)
    else Accepted
  }

  /** `updateButtonState`: the add button is enabled when the box holds more
      than whitespace and nothing is being submitted. */
  predicate ButtonEnabled(f: Form)
    ensures ButtonEnabled(f) <==> !AllWhitespace(f.input) && !f.isSubmitting
  {
    TrimEmptyIff(f.input);
    Trim(f.input) != "" && !f.isSubmitting
  }

  /** `handleAddError`: transport failures first, then server errors, then the
      generic wording. */
  function ClassifyError(message: string): (r: string)
    ensures r == NETWORK_ERROR || r == SERVER_ERROR || r == GENERIC_ERROR
  {
    if Contains(message, "NetworkError") || Contains(message, "Failed to fetch") then NETWORK_ERROR
    else if Contains(message, "500") then SERVER_ERROR
    else GENERIC_ERROR
  }

  /** `handleAddTask` up to the awaited call: ignored while a submission is in
      flight; otherwise the trimmed text is validated and, when it passes, the
      form enters the submitting state and `onAddTask` is called with it. */
  function Submit(f: Form): (r: Run)
    ensures f.isSubmitting ==> r == Run(f, [], None)
    ensures r.form.input == f.input
    ensures |r.calls| <= 1
    ensures r.calls != [] <==> !f.isSubmitting && ValidateInput(Trim(f.input)).Accepted?
    ensures r.calls != [] ==> r.calls == [Trim(f.input)] && r.form.isSubmitting && r.notice.None?
  {
    if f.isSubmitting then Run(f, [], None)
    else
      var title := Trim(f.input);
      match ValidateInput(title)
      case Rejected(m) => Run(f, [], Some(m))
      case Accepted => Run(f.(isSubmitting := true), [title], None)
  }

  /** `handleAddTask` after the call settles: on success the box is cleared, on
      failure it keeps its text and the classified error is shown; either way
      the `finally` clears the submitting flag. */
  function Settle(f: Form, o: AddOutcome): (r: Run)
    ensures !r.form.isSubmitting && r.calls == []
    ensures o.Resolved? ==> r.form.input == "" && r.notice.None?
    ensures o.Threw? ==> r.form.input == f.input && r.notice == Some(ClassifyError(o.message))
  {
    match o
    case Resolved => Run(Form("", false), [], None)
    case Threw(m) => Run(f.(isSubmitting := false), [], Some(ClassifyError(m)))
  }

  /** One whole `handleAddTask` invocation, given how `onAddTask` settles. */
  function HandleAddTask(f: Form, o: AddOutcome): (r: Run)
    ensures |r.calls| <= 1
    ensures r.calls != [] ==> r.calls == [Trim(f.input)] && ValidateInput(Trim(f.input)).Accepted?
    ensures !f.isSubmitting ==> !r.form.isSubmitting
  {
    var s := Submit(f);
    if s.calls == [] then s
    else
      var t := Settle(s.form, o);
      Run(t.form, s.calls, t.notice)
  }

  // ----------------------------------------------------------- properties

  /** The guard: a second submission while the first is awaiting its call is
      ignored, and the button is disabled meanwhile. */
  lemma SecondSubmitIgnored(f: Form)
    ensures var pending := Submit(f).form;
            Submit(f).calls != [] ==> Submit(pending) == Run(pending, [], None) && !ButtonEnabled(pending)
  {
  }

  /** `onAddTask` is called exactly once when the guard is down and the trimmed
      text validates, and never otherwise; the form is left not submitting. */
  lemma HandleAddCallsOnceIffValid(f: Form, o: AddOutcome)
    requires !f.isSubmitting
    ensures var r := HandleAddTask(f, o);
            && (|r.calls| == 1 <==> MIN_LENGTH <= |Trim(f.input)| <= MAX_LENGTH)
            && !r.form.isSubmitting
  {
  }

  /** Success clears the box; failure keeps its text and shows the classified error. */
  lemma HandleAddSettles(f: Form, o: AddOutcome)
    requires !f.isSubmitting && ValidateInput(Trim(f.input)).Accepted?
    ensures o.Resolved? ==> HandleAddTask(f, o).form == Form("", false)
    ensures o.Threw? ==> HandleAddTask(f, o).form == Form(f.input, false)
    ensures o.Threw? ==> HandleAddTask(f, o).notice == Some(ClassifyError(o.message))
  {
  }

  /** A one-character title is turned away without calling `onAddTask`; a
      two-character title is passed on exactly once. */
  lemma ShortTitles(a: char, b: char, o: AddOutcome)
    requires !IsWhitespace(a) && !IsWhitespace(b)
    ensures HandleAddTask(Form([a], false), o) == Run(Form([a], false), [], Some(SHORT_MESSAGE))
    ensures HandleAddTask(Form([a, b], false), o).calls == [[a, b]]
  {
    TrimOfTrimmed([a]);
    TrimOfTrimmed([a, b]);
  }

  /** An enabled button is needed for a call but is not enough: a single
      character enables the button and still fails validation. */
  lemma ButtonEnabledNotSufficient(f: Form, c: char)
    ensures Submit(f).calls != [] ==> ButtonEnabled(f)
    ensures !IsWhitespace(c) ==> ButtonEnabled(Form([c], false)) && Submit(Form([c], false)).calls == []
  {
    if !IsWhitespace(c) {
      TrimOfTrimmed([c]);
    }
  }

  /** A transport failure outranks a server error, and a server error outranks
      the generic wording. */
  lemma ClassifyErrorPriority(message: string)
    ensures Contains(message, "NetworkError") || Contains(message, "Failed to fetch")
            <==> ClassifyError(message) == NETWORK_ERROR
    ensures ClassifyError(message) == SERVER_ERROR
            <==> !Contains(message, "NetworkError") && !Contains(message, "Failed to fetch")
                 && Contains(message, "500")
    ensures ClassifyError(message) == GENERIC_ERROR
            <==> !Contains(message, "NetworkError") && !Contains(message, "Failed to fetch")
                 && !Contains(message, "500")
  {
  }

  /** The API client throws `Error HTTP: <status>`: a 500 reads as a server
      error, whatever surrounds the status text, and so does any message that
      mentions 500 but no transport failure. */
  lemma ClassifyHttpError(prefix: string, suffix: string)
    requires !Contains(prefix + "500" + suffix, "NetworkError")
    requires !Contains(prefix + "500" + suffix, "Failed to fetch")
    ensures ClassifyError(prefix + "500" + suffix) == SERVER_ERROR
  {
    assert StartsWith("500", "500");
    ContainsInContext(prefix, "500", suffix, "500");
  }

  /** A transport failure wins even when the message also mentions 500. */
  lemma ClassifyNetworkWins(prefix: string, suffix: string)
    ensures ClassifyError(prefix + "NetworkError" + suffix) == NETWORK_ERROR
    ensures ClassifyError(prefix + "Failed to fetch" + suffix) == NETWORK_ERROR
  {
    assert StartsWith("NetworkError", "NetworkError");
    ContainsInContext(prefix, "NetworkError", suffix, "NetworkError");
    assert StartsWith("Failed to fetch", "Failed to fetch");
    ContainsInContext(prefix, "Failed to fetch", suffix, "Failed to fetch");
  }
}
