/** Flash-message helpers of quad/colleges/messages.py.

    `alert(request, message, color, type)` looks `type` up among Django's five
    message levels, raises `ValueError('Incorrect message type')` when it is not
    one of them, and otherwise dispatches the message once at that level with
    Bootstrap alert classes for `color` as its extra tags. A dispatch is modelled
    as the level, message and tags passed to Django's message function; the
    request, and whether the message store then keeps the message, are left out. */
module Messages {
  import opened Results
  import opened Text

  // Bootstrap alert colours
  const Primary := "primary"
  const Secondary := "secondary"
  const SuccessColor := "success"
  const Danger := "danger"
  const WarningColor := "warning"
  const InfoColor := "info"
  const Light := "light"
  const Dark := "dark"

  /** The five keys of `CALL_MESSAGE`, one per Django message function. */
  datatype Level = Debug | Info | Success | Warning | Error

  function LevelName(l: Level): string
  {
    match l
    case Debug => "debug"
    case Info => "info"
    case Success => "success"
    case Warning => "warning"
    case Error => "error"
  }

  /** `CALL_MESSAGE[type]`, `None` when `type not in CALL_MESSAGE`. */
  function LookupLevel(name: string): (r: Option<Level>)
    ensures r.Some? ==> LevelName(r.value) == name
    ensures r.None? <==> forall l: Level :: LevelName(l) != name
  {
    if name == "debug" then Some(Debug)
    else if name == "info" then Some(Info)
    else if name == "success" then Some(Success)
    else if name == "warning" then Some(Warning)
    else if name == "error" then Some(Error)
    else None
  }

  /** Every level is found under its own name: the lookup misses exactly the names that are not level names. */
  lemma LookupLevelName(l: Level)
    ensures LookupLevel(LevelName(l)) == Some(l)
  {
  }

  const TagsPrefix := "alert alert-"
  const TagsSuffix := " alert-dismissible fade show"

  /** `get_tags(color)`. */
  function GetTags(color: string): string
  {
    TagsPrefix + color + TagsSuffix
  }

  /** Reads the colour back out of a tag string. */
  function ColorOfTags(tags: string): Option<string>
  {
    match StripPrefix(TagsPrefix, tags)
    case None => None
    case Some(rest) => StripSuffix(TagsSuffix, rest)
  }

  /** The tag string names its colour exactly: the colour can be read back, so
      distinct colours give distinct tags. */
  lemma TagsRoundTrip(color: string)
    ensures ColorOfTags(GetTags(color)) == Some(color)
  {
    assert GetTags(color) == TagsPrefix + (color + TagsSuffix);
    StripPrefixOfConcat(TagsPrefix, color + TagsSuffix);
    StripSuffixOfConcat(TagsSuffix, color);
  }

  /** The level, message and extra tags passed to Django's message function. */
  datatype Dispatch = Dispatch(level: Level, message: string, tags: string)

  datatype AlertError = ValueError(reason: string)

  const IncorrectType := "Incorrect message type"

  /** `alert(request, message, color, type)`. */
  function Alert(message: string, color: string, msgType: string): (r: Result<Dispatch, AlertError>)
    ensures r.Err? <==> LookupLevel(msgType).None?
    ensures r.Err? ==> r.error == ValueError(IncorrectType)
    ensures r.Ok? ==> && LevelName(r.value.level) == msgType
                      && r.value.message == message
                      && ColorOfTags(r.value.tags) == Some(color)
  {
    match LookupLevel(msgType)
    case None => Err(ValueError(IncorrectType))
    case Some(level) =>
      TagsRoundTrip(color);
      Ok(Dispatch(level, message, GetTags(color)))
  }

  /** `alert(request, message, color)`: the type defaults to 'success'. */
  function AlertWithDefaultType(message: string, color: string): (r: Result<Dispatch, AlertError>)
    ensures r.Ok? && r.value.level == Success
    ensures r.value.message == message && ColorOfTags(r.value.tags) == Some(color)
  {
    Alert(message, color, "success")
  }

  // ------------------------------------------------------------ canned alerts

  /** `wrong_college_alert`. */
  function WrongCollegeAlert(): (r: Result<Dispatch, AlertError>)
    ensures r.Ok?
    ensures r.value.level == Warning && ColorOfTags(r.value.tags) == Some(WarningColor)
    ensures r.value.message == "You do not belong to this college."
  {
    Alert("You do not belong to this college.", WarningColor, "warning")
  }

  /** `failed_update_alert`: the text names the model. */
  function FailedUpdateAlert(modelName: string): (r: Result<Dispatch, AlertError>)
    ensures r.Ok?
    ensures r.value.level == Error && ColorOfTags(r.value.tags) == Some(Danger)
    ensures StripPrefix("Something went wrong with trying to update the ", r.value.message).Some?
    ensures var rest := StripPrefix("Something went wrong with trying to update the ", r.value.message).value;
      StripSuffix(", try again in a few minutes", rest) == Some(modelName)
  {
    var text := "Something went wrong with trying to update the " + modelName + ", try again in a few minutes";
    assert text == "Something went wrong with trying to update the " + (modelName + ", try again in a few minutes");
    StripPrefixOfConcat("Something went wrong with trying to update the ", modelName + ", try again in a few minutes");
    StripSuffixOfConcat(", try again in a few minutes", modelName);
    Alert(text, Danger, "error")
  }

  /** `successful_update_alert`: `<model_name> successfully updated!`. */
  function SuccessfulUpdateAlert(modelName: string): (r: Result<Dispatch, AlertError>)
    ensures r.Ok?
    ensures r.value.level == Success && ColorOfTags(r.value.tags) == Some(SuccessColor)
    ensures StripSuffix(" successfully updated!", r.value.message) == Some(modelName)
  {
    StripSuffixOfConcat(" successfully updated!", modelName);
    Alert(modelName + " successfully updated!", SuccessColor, "success")
  }

  /** `successful_delete_alert`: `<model_name> successfully deleted!`. */
  function SuccessfulDeleteAlert(modelName: string): (r: Result<Dispatch, AlertError>)
    ensures r.Ok?
    ensures r.value.level == Success && ColorOfTags(r.value.tags) == Some(SuccessColor)
    ensures StripSuffix(" successfully deleted!", r.value.message) == Some(modelName)
  {
    StripSuffixOfConcat(" successfully deleted!", modelName);
    Alert(modelName + " successfully deleted!", SuccessColor, "success")
  }

  /** `no_perms_alert`. */
  function NoPermsAlert(): (r: Result<Dispatch, AlertError>)
    ensures r.Ok?
    ensures r.value.level == Warning && ColorOfTags(r.value.tags) == Some(WarningColor)
    ensures r.value.message == "You do not have permissions to modify this."
  {
    Alert("You do not have permissions to modify this.", WarningColor, "warning")
  }

  /** The update and delete confirmations for the same model never read the same. */
  lemma UpdateAndDeleteTextsDiffer(modelName: string)
    ensures SuccessfulUpdateAlert(modelName).value.message != SuccessfulDeleteAlert(modelName).value.message
  {
  }
}
