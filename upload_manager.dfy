/**
 * The upload form: the field validator that fills a field-keyed error map,
 * and the submit handler that calls the upload service only when that map
 * is empty and records the active episode only after a successful upload.
 */
module UploadManager {
  import opened Wrappers
  import opened JsText
  import opened YoutubeService

  /** The keys of the error map. */
  datatype Field = EpNumberField | TitleField | DateField | DescriptionField | TagsField | FileField

  /** The form's field values as the user left them. */
  datatype UploadForm = UploadForm(
    file: Option<VideoFile>,
    epNumber: string,
    title: string,
    lang: string,
    date: string,
    description: string,
    tags: string)

  const EpNumberMessage := "Episode number must be a positive number."
  const TitleMessage := "Title is required."
  const DateMessage := "Date is required."
  const DescriptionMessage := "Description is required."
  const TagsMessage := "At least one tag is required."
  const FileMessage := "A video file must be selected for upload."

  /** The message shown under each invalid field. */
  function ErrorMessage(f: Field): string {
    match f
    case EpNumberField => EpNumberMessage
    case TitleField => TitleMessage
    case DateField => DateMessage
    case DescriptionField => DescriptionMessage
    case TagsField => TagsMessage
    case FileField => FileMessage
  }

  /**
   * `!epNumber || parseInt(epNumber) <= 0`. A `NaN` from `parseInt` compares
   * false, so text with no leading digits is not rejected.
   */
  predicate EpNumberRejected(epNumber: string) {
    epNumber == "" || (ParseInt(epNumber).Some? && ParseInt(epNumber).value <= 0)
  }

  /** Whether a field breaks its rule. */
  predicate FieldInvalid(form: UploadForm, f: Field) {
    match f
    case EpNumberField => EpNumberRejected(form.epNumber)
    case TitleField => Trim(form.title) == ""
    case DateField => form.date == ""
    case DescriptionField => Trim(form.description) == ""
    case TagsField => Trim(form.tags) == ""
    case FileField => form.file.None?
  }

  /** Every key the validator can set. */
  const AllFields: set<Field> := {EpNumberField, TitleField, DateField, DescriptionField, TagsField, FileField}

  /** The error map the validator leaves behind: one entry per broken rule. */
  function ValidationErrors(form: UploadForm): map<Field, string>
  {
    map f | f in AllFields && FieldInvalid(form, f) :: ErrorMessage(f)
  }

  /**
   * `validate()`: builds the error map one field at a time. A field is a key
   * exactly when it breaks its rule, with that rule's message, and the form
   * passes exactly when the map is empty.
   */
  method Validate(form: UploadForm) returns (errors: map<Field, string>, ok: bool)
    ensures EpNumberField in errors <==> EpNumberRejected(form.epNumber)
    ensures TitleField in errors <==> Trim(form.title) == ""
    ensures DateField in errors <==> form.date == ""
    ensures DescriptionField in errors <==> Trim(form.description) == ""
    ensures TagsField in errors <==> Trim(form.tags) == ""
    ensures FileField in errors <==> form.file.None?
    ensures forall f :: f in errors ==> errors[f] == ErrorMessage(f)
    ensures ok <==> errors == map[]
    ensures errors == ValidationErrors(form)
  {
    errors := map[];
    var parsed := ParseInt(form.epNumber);
    errors := FlagIf(errors, EpNumberField, form.epNumber == "" || (parsed.Some? && parsed.value <= 0));
    errors := FlagIf(errors, TitleField, Trim(form.title) == "");
    errors := FlagIf(errors, DateField, form.date == "");
    errors := FlagIf(errors, DescriptionField, Trim(form.description) == "");
    errors := FlagIf(errors, TagsField, Trim(form.tags) == "");
    errors := FlagIf(errors, FileField, form.file.None?);
    ok := HasNoKeys(errors);
    ValidationErrorsUnique(form, errors);
  }

  /** Every key of the map carries its field's message. */
  predicate MessagesMatch(errors: map<Field, string>) {
    forall f :: f in errors ==> errors[f] == ErrorMessage(f)
  }

  /** `if (broken) newErrors.<field> = <message>`: the key is added, with its message, exactly when the rule is broken; other keys are kept. */
  method FlagIf(errors: map<Field, string>, f: Field, broken: bool) returns (r: map<Field, string>)
    ensures f in r <==> broken || f in errors
    ensures forall g :: g != f ==> (g in r <==> g in errors)
    ensures MessagesMatch(errors) ==> MessagesMatch(r)
  {
    r := errors;
    if broken {
      r := r[f := ErrorMessage(f)];
    }
  }

  /** `Object.keys(m).length === 0`: true exactly of the empty map. */
  method HasNoKeys<K, V>(m: map<K, V>) returns (empty: bool)
    ensures empty <==> m == map[]
  {
    empty := |m| == 0;
    if empty {
      assert m.Keys == {};
    }
  }

  /** A map with a key, carrying its message, for exactly the broken rules is the validator's map. */
  lemma ValidationErrorsUnique(form: UploadForm, errors: map<Field, string>)
    requires EpNumberField in errors <==> EpNumberRejected(form.epNumber)
    requires TitleField in errors <==> Trim(form.title) == ""
    requires DateField in errors <==> form.date == ""
    requires DescriptionField in errors <==> Trim(form.description) == ""
    requires TagsField in errors <==> Trim(form.tags) == ""
    requires FileField in errors <==> form.file.None?
    requires forall f :: f in errors ==> errors[f] == ErrorMessage(f)
    ensures errors == ValidationErrors(form)
  {
    ValidationErrorsKeys(form);
    forall f
      ensures f in errors <==> f in ValidationErrors(form)
    {
      match f
      case EpNumberField =>
      case TitleField =>
      case DateField =>
      case DescriptionField =>
      case TagsField =>
      case FileField =>
    }
  }

  /** The episode shared with the other modules after an upload. */
  datatype ActiveEpisode = ActiveEpisode(epNumber: string, title: string, youtubeId: string)

  /** What the form shows: the field errors, the upload response and the upload error. */
  datatype UploadView = UploadView(
    errors: map<Field, string>,
    response: Option<string>,
    apiError: Option<string>)

  /** A submit's effect: the new view, the new active episode, and the upload call made, if any. */
  datatype Submission = Submission(
    view: UploadView,
    active: Option<ActiveEpisode>,
    request: Option<(VideoFile, UploadMetadata)>)

  /** Each comma-separated piece, trimmed: `tags.split(',').map(t => t.trim())`. */
  function TrimmedPieces(s: string): (r: seq<string>)
    ensures |r| == |Split(s, ',')|
    ensures forall i :: 0 <= i < |r| ==> r[i] == Trim(Split(s, ',')[i])
  {
    var parts := Split(s, ',');
    seq(|parts|, i requires 0 <= i < |parts| => Trim(parts[i]))
  }

  /** The metadata sent with the upload. */
  function MetadataOf(form: UploadForm): UploadMetadata {
    UploadMetadata(form.epNumber, form.title, form.lang, form.description, TrimmedPieces(form.tags))
  }

  const UnknownUploadError := "An unknown error occurred during upload."

  /**
   * `handleSubmit` once the awaited upload has settled. An invalid form only
   * replaces the error map: no upload is requested and nothing else changes.
   * A valid form is uploaded with its file; success shows the video id and
   * makes this episode the active one, failure shows the error and keeps the
   * active episode.
   */
  function HandleSubmit(form: UploadForm, view: UploadView, active: Option<ActiveEpisode>): (r: Submission)
    ensures r.view.errors == ValidationErrors(form)
    ensures ValidationErrors(form) != map[] ==>
      r.request == None && r.view == view.(errors := ValidationErrors(form)) && r.active == active
    ensures ValidationErrors(form) == map[] ==>
      form.file.Some? && r.request == Some((form.file.value, MetadataOf(form)))
    ensures r.request.Some? && Upload(r.request.value.0, r.request.value.1).Success? ==>
      && r.view.response == Some(MockVideoId) && r.view.apiError == None
      && r.active == Some(ActiveEpisode(form.epNumber, form.title, MockVideoId))
    ensures r.request.Some? && Upload(r.request.value.0, r.request.value.1).Failure? ==>
      r.view.response == None && r.view.apiError == Some(UploadFailureMessage) && r.active == active
    ensures r.active != active ==>
      r.request.Some? && r.active == Some(ActiveEpisode(form.epNumber, form.title, MockVideoId))
  {
    var errors := ValidationErrors(form);
    if errors != map[] then
      Submission(view.(errors := errors), active, None)
    else
      assert FieldInvalid(form, FileField) ==> FileField in errors;
      var file := form.file.value;
      var metadata := MetadataOf(form);
      match Upload(file, metadata)
      case Success(id) =>
        Submission(UploadView(errors, Some(id), None),
                   Some(ActiveEpisode(form.epNumber, form.title, id)),
                   Some((file, metadata)))
      case Failure(message) =>
        var shown := if message == "" then UnknownUploadError else message;
        Submission(UploadView(errors, None, Some(shown)), active, Some((file, metadata)))
  }

  /** A non-numeric episode number such as "abc" parses to NaN and is not flagged. */
  lemma NonNumericEpisodeNotFlagged()
    ensures ParseInt("abc") == None
    ensures !EpNumberRejected("abc")
  {
    ParseIntNoDigits("abc");
  }

  /** "0", "-3" and the empty string are flagged. */
  lemma EpisodeNumbersFlagged()
    ensures EpNumberRejected("0") && EpNumberRejected("-3") && EpNumberRejected("")
  {
    ParseIntSignedDigits(false, "0");
    ParseIntSignedDigits(true, "3");
    assert "-" + "3" == "-3";
  }

  /** A count's decimal rendering is rejected exactly when the count is 0. */
  lemma EpNumberRejectedCount(n: nat)
    ensures EpNumberRejected(NatToString(n)) <==> n == 0
  {
    ParseIntNatToString(n);
  }

  /** "56" is accepted. */
  lemma EpisodeNumberAccepted()
    ensures !EpNumberRejected("56")
  {
    ParseIntSignedDigits(false, "56");
    assert DigitsValue("56", 10) > 0 by {
      assert "56"[..1] == "5";
    }
  }

  /** The error map has a key exactly for each broken rule. */
  lemma ValidationErrorsKeys(form: UploadForm)
    ensures forall f :: f in ValidationErrors(form) <==> FieldInvalid(form, f)
  {
    forall f
      ensures f in ValidationErrors(form) <==> FieldInvalid(form, f)
    {
      assert f in AllFields by {
        match f
        case EpNumberField =>
        case TitleField =>
        case DateField =>
        case DescriptionField =>
        case TagsField =>
        case FileField =>
      }
    }
  }

  /**
   * A form with an empty title, episode number "0" and no file, the other
   * fields filled, breaks exactly the episode-number, title and file rules.
   */
  lemma ThreeBrokenRules(form: UploadForm, f: Field)
    requires form.title == "" && form.epNumber == "0" && form.file.None?
    requires form.date != "" && Trim(form.description) != "" && Trim(form.tags) != ""
    ensures FieldInvalid(form, f) <==> f == EpNumberField || f == TitleField || f == FileField
  {
    match f
    case EpNumberField =>
      ParseIntSignedDigits(false, "0");
    case TitleField =>
    case DateField =>
    case DescriptionField =>
    case TagsField =>
    case FileField =>
  }

  /** The error map of such a form has exactly those three keys. */
  lemma ThreeErrorKeys(form: UploadForm)
    requires form.title == "" && form.epNumber == "0" && form.file.None?
    requires form.date != "" && Trim(form.description) != "" && Trim(form.tags) != ""
    ensures ValidationErrors(form).Keys == {EpNumberField, TitleField, FileField}
  {
    ValidationErrorsKeys(form);
    forall f
      ensures f in ValidationErrors(form) <==> f in {EpNumberField, TitleField, FileField}
    {
      ThreeBrokenRules(form, f);
    }
  }

  /**
   * Submitting such a form shows exactly those three errors; no upload is
   * requested and the active episode stays as it was.
   */
  lemma ThreeErrorScenario(form: UploadForm, view: UploadView, active: Option<ActiveEpisode>)
    requires form.title == "" && form.epNumber == "0" && form.file.None?
    requires form.date != "" && Trim(form.description) != "" && Trim(form.tags) != ""
    ensures HandleSubmit(form, view, active).view.errors.Keys == {EpNumberField, TitleField, FileField}
    ensures HandleSubmit(form, view, active).request == None
    ensures HandleSubmit(form, view, active).active == active
  {
    ThreeErrorKeys(form);
    assert EpNumberField in ValidationErrors(form);
  }
}
