/**
 * The set-up script: after the prompts, `handleAnswers` either exits or
 * writes the project configuration, and `updateContent` rewrites
 * `package.json` so that `npm start` runs the build scripts and `npm test`
 * is gone. Parsing JSON text is the oracle `parse`, which gives `None`
 * where `JSON.parse` throws; printing and file writes are not modelled.
 */
module Create {
  import opened JsString

  /** A parsed JSON value. Key order of objects is not kept. */
  datatype Json =
    | JNull
    | JBool(b: bool)
    | JNumber(n: int)
    | JString(s: string)
    | JArray(items: seq<Json>)
    | JObject(fields: map<string, Json>)

  /** The exceptions the rewrite can throw. */
  datatype Thrown = SyntaxError | TypeError

  /** What `updateContent` does: write the edited package, or throw. */
  datatype Outcome = Written(package: Json) | Threw(error: Thrown)

  /** The start script the rewrite installs. */
  const StartScript: string := "webpack-amplefuture-scripts"

  /** JavaScript truthiness of a JSON value, `undefined` written `None`. */
  predicate Truthy(v: Option<Json>) {
    match v
    case None => false
    case Some(JNull) => false
    case Some(JBool(b)) => b
    case Some(JNumber(n)) => n != 0
    case Some(JString(s)) => s != ""
    case Some(_) => true
  }

  /** A primitive: setting a property on it throws in strict mode. */
  predicate IsPrimitive(v: Json) {
    v.JBool? || v.JNumber? || v.JString?
  }

  /** `scripts` with `start` set and `test` deleted; other keys untouched. */
  ghost predicate EditedScripts(before: map<string, Json>, after: map<string, Json>) {
    && "start" in after && after["start"] == JString(StartScript)
    && "test" !in after
    && forall k :: k != "start" && k != "test" ==>
         (k in after <==> k in before) && (k in before ==> after[k] == before[k])
  }

  /**
   * What the body of `updateContent` does to a parsed package: `null` and
   * primitives throw `TypeError`; an array comes out unchanged; an object
   * gets `scripts.start` set and `scripts.test` deleted, every other key
   * kept, with an absent `scripts` becoming `{start}` alone and a `scripts`
   * that is `null` or a primitive throwing `TypeError`.
   */
  ghost predicate Edited(config: Json, outcome: Outcome) {
    && (config.JNull? || IsPrimitive(config) ==> outcome == Threw(TypeError))
    && (config.JArray? ==> outcome == Written(config))
    && (config.JObject? && "scripts" !in config.fields ==>
          outcome == Written(JObject(config.fields["scripts" := JObject(map["start" := JString(StartScript)])])))
    && (config.JObject? && "scripts" in config.fields ==>
          var scripts := config.fields["scripts"];
          && (scripts.JNull? || IsPrimitive(scripts) ==> outcome == Threw(TypeError))
          && (scripts.JArray? ==> outcome == Written(config))
          && (scripts.JObject? ==>
                outcome.Written? && outcome.package.JObject?
                && outcome.package.fields.Keys == config.fields.Keys
                && (forall k :: k in config.fields && k != "scripts" ==> outcome.package.fields[k] == config.fields[k])
                && outcome.package.fields["scripts"].JObject?
                && EditedScripts(scripts.fields, outcome.package.fields["scripts"].fields)))
  }

  /**
   * The body of `updateContent` after parsing, step by step: take
   * `scripts` (default `{}`), set its `start`, delete its `test`, and put
   * it back into the package. Destructuring `null` throws; so does setting
   * a property of a primitive or of `null`. A property set on an array is
   * dropped when the array is printed, so arrays come out unchanged.
   */
  method EditPackage(config: Json) returns (outcome: Outcome)
    ensures Edited(config, outcome)
  {
    if config.JNull? {
      return Threw(TypeError);
    }
    var scripts := if config.JObject? && "scripts" in config.fields then config.fields["scripts"] else JObject(map[]);
    match scripts {
      case JObject(fields) =>
        var edited := fields["start" := JString(StartScript)];
        edited := map k | k in edited && k != "test" :: edited[k];
        assert EditedScripts(fields, edited);
        assert fields == map[] ==> edited == map["start" := JString(StartScript)];
        scripts := JObject(edited);
      case JArray(_) =>
      case _ =>
        return Threw(TypeError);
    }
    match config {
      case JObject(fields) =>
        outcome := Written(JObject(fields["scripts" := scripts]));
        assert "scripts" in fields ==> outcome.package.fields.Keys == fields.Keys;
        assert scripts.JArray? ==> fields["scripts" := scripts] == fields;
      case JArray(_) =>
        outcome := Written(config);
      case _ =>
        outcome := Threw(TypeError);
    }
  }

  /** `JSON.parse(data)`, as `updateContent` calls it. */
  function ParsePackageAsWritten(data: string, parse: string -> Option<Json>): Option<Json> {
    parse(data)
  }

  /**
   * Parsing as the comment above it promises: the empty default text
   * stands for an empty object; any other text is parsed.
   */
  function ParsePackage(data: string, parse: string -> Option<Json>): (config: Option<Json>)
    ensures data == "" ==> config == Some(JObject(map[]))
    ensures data != "" ==> config == parse(data)
  {
    if data == "" then Some(JObject(map[])) else parse(data)
  }

  /**
   * The empty text is not JSON, so `JSON.parse("")` throws: an existing
   * but empty `package.json` is read as `""`, and `updateContent` throws a
   * `SyntaxError` instead of starting from an empty object, so no package
   * file is written.
   */
  lemma EmptyPackageTextThrows(parse: string -> Option<Json>)
    requires parse("") == None
    ensures ParsePackageAsWritten("", parse).None?
    ensures ParsePackage("", parse) == Some(JObject(map[]))
  {
  }

  /**
   * `updateContent(err, data)` with the empty-text default read as the
   * comment in the source promises; text that is not JSON throws, and
   * parsed text is edited as `Edited` says.
   */
  method UpdateContent(data: string, parse: string -> Option<Json>) returns (outcome: Outcome)
    ensures data != "" && parse(data).None? ==> outcome == Threw(SyntaxError)
    ensures data != "" && parse(data).Some? ==> Edited(parse(data).value, outcome)
    ensures data == "" ==>
      outcome == Written(JObject(map["scripts" := JObject(map["start" := JString(StartScript)])]))
    ensures outcome.Written? ==> outcome.package.JObject? || outcome.package.JArray?
  {
    var config := ParsePackage(data, parse);
    if config.None? {
      return Threw(SyntaxError);
    }
    outcome := EditPackage(config.value);
  }

  /**
   * `updatePackageJson`: read `package.json` when it exists, and rewrite
   * it; without one, `updateContent` runs on its default empty text.
   */
  method UpdatePackageJson(packageJson: Option<string>, parse: string -> Option<Json>) returns (outcome: Outcome)
    ensures packageJson.None? || packageJson == Some("") ==>
      outcome == Written(JObject(map["scripts" := JObject(map["start" := JString(StartScript)])]))
    ensures packageJson.Some? && packageJson.value != "" && parse(packageJson.value).None? ==>
      outcome == Threw(SyntaxError)
    ensures packageJson.Some? && packageJson.value != "" && parse(packageJson.value).Some? ==>
      Edited(parse(packageJson.value).value, outcome)
  {
    var data := if packageJson.Some? then packageJson.value else "";
    outcome := UpdateContent(data, parse);
  }

  /** An empty object package gets the start script as its only script. */
  lemma EmptyObjectPackage(data: string, parse: string -> Option<Json>, outcome: Outcome)
    requires data != "" && parse(data) == Some(JObject(map[]))
    requires Edited(parse(data).value, outcome)
    ensures outcome == Written(JObject(map["scripts" := JObject(map["start" := JString(StartScript)])]))
  {
  }

  /**
   * The `continue` answer as the prompt gives it: the question is asked
   * only when both `project.config.json` and `package.json` exist, and a
   * question that is not asked leaves no answer.
   */
  function ContinueAnswerAsWritten(configExists: bool, packageExists: bool, confirmed: bool): (answer: Option<Json>)
    ensures Truthy(answer) <==> configExists && packageExists && confirmed
    ensures !(configExists && packageExists) ==> answer.None?
  {
    if configExists && packageExists then Some(JBool(confirmed)) else None
  }

  /**
   * Without a project configuration `continue` is never asked, so it is
   * not truthy and `handleAnswers` exits: a fresh project is never set up.
   */
  lemma FreshProjectNeverSetUp(packageExists: bool, confirmed: bool)
    ensures !Truthy(ContinueAnswerAsWritten(false, packageExists, confirmed))
  {
  }

  /**
   * The `continue` answer as the confirmation question means it: the user
   * is asked only before an existing set-up is overwritten, and otherwise
   * the set-up goes on.
   */
  function ContinueAnswer(configExists: bool, packageExists: bool, confirmed: bool): (answer: Option<Json>)
    ensures Truthy(answer) <==> !(configExists && packageExists) || confirmed
    ensures configExists && packageExists ==> answer == ContinueAnswerAsWritten(configExists, packageExists, confirmed)
  {
    if configExists && packageExists then Some(JBool(confirmed)) else Some(JBool(true))
  }

  /** Where `handleAnswers` leaves the set-up. */
  datatype Step =
    | Exit(code: int)
    | AwaitingConnection
    | WriteConfig(config: map<string, Json>)

  /**
   * `handleAnswers`: exit with code 0 unless `continue` is truthy; else
   * delete `continue` and test the connection; when the test succeeds,
   * write the remaining answers as the project configuration, after which
   * `updatePackageJson` runs. When the test fails its callback is never
   * called and nothing is written. The connection test is `connectionOk`.
   */
  method HandleAnswers(answers: map<string, Json>, connectionOk: bool) returns (step: Step)
    ensures step == Exit(0) <==> !Truthy(if "continue" in answers then Some(answers["continue"]) else None)
    ensures "continue" !in answers ==> step == Exit(0)
    ensures step.WriteConfig? <==> step != Exit(0) && connectionOk
    ensures step.WriteConfig? ==>
      "continue" !in step.config
      && forall k :: k != "continue" ==>
           (k in step.config <==> k in answers) && (k in answers ==> step.config[k] == answers[k])
  {
    var continuing := if "continue" in answers then Some(answers["continue"]) else None;
    if !Truthy(continuing) {
      return Exit(0);
    }
    var remaining := map k | k in answers && k != "continue" :: answers[k];
    if !connectionOk {
      return AwaitingConnection;
    }
    step := WriteConfig(remaining);
  }
}
