/**
 * The Lambda function itself: its configuration, the two location resolvers,
 * and the straight-line handler that reads a transcript, asks the model for a
 * summary and writes the summary document.
 */
module Lambda {
  import opened Wrappers
  import opened PosixPath
  import opened UrlDecode
  import opened Json

  // ---------------------------------------------------------------------------
  // Configuration, read from the process environment at import

  datatype Config = Config(
    region: string,
    modelId: string,
    inputBucket: string,
    defaultTranscriptKey: string,
    outputBucket: string,
    outputObjectKey: string,
    outputPrefix: string)

  const DefaultRegion: string := "eu-central-1"

  /** `os.environ.get(name, default)`. */
  function EnvOr(env: map<string, string>, name: string, default: string): string {
    if name in env then env[name] else default
  }

  /** The module-level constants. `os.environ[name]` raises for a missing
      required variable; the error carries that variable's name. */
  function ConfigFromEnvironment(env: map<string, string>): (r: Result<Config, string>)
    ensures r.Ok? <==>
      "MODEL_ID" in env && "INPUT_BUCKET" in env && "DEFAULT_TRANSCRIPT_OBJECT_KEY" in env
    ensures r.Err? ==> r.error !in env
    ensures r.Err? && "MODEL_ID" !in env ==> r.error == "MODEL_ID"
    ensures r.Err? && "MODEL_ID" in env && "INPUT_BUCKET" !in env ==> r.error == "INPUT_BUCKET"
    ensures r.Err? && "MODEL_ID" in env && "INPUT_BUCKET" in env ==> r.error == "DEFAULT_TRANSCRIPT_OBJECT_KEY"
    ensures r.Ok? ==> && r.value.modelId == env["MODEL_ID"]
                      && r.value.inputBucket == env["INPUT_BUCKET"]
                      && r.value.defaultTranscriptKey == env["DEFAULT_TRANSCRIPT_OBJECT_KEY"]
    ensures r.Ok? ==> r.value.region == EnvOr(env, "REGION", DefaultRegion)
    ensures r.Ok? && "OUTPUT_BUCKET" !in env ==> r.value.outputBucket == r.value.inputBucket
    ensures r.Ok? && "OUTPUT_OBJECT_KEY" !in env ==> r.value.outputObjectKey == []
    ensures r.Ok? && "OUTPUT_PREFIX" !in env ==> r.value.outputPrefix == []
    ensures r.Ok? && "OUTPUT_BUCKET" in env ==> r.value.outputBucket == env["OUTPUT_BUCKET"]
    ensures r.Ok? && "OUTPUT_OBJECT_KEY" in env ==> r.value.outputObjectKey == env["OUTPUT_OBJECT_KEY"]
    ensures r.Ok? && "OUTPUT_PREFIX" in env ==> r.value.outputPrefix == env["OUTPUT_PREFIX"]
  {
    var region := EnvOr(env, "REGION", DefaultRegion);
    if "MODEL_ID" !in env then Err("MODEL_ID")
    else if "INPUT_BUCKET" !in env then Err("INPUT_BUCKET")
    else if "DEFAULT_TRANSCRIPT_OBJECT_KEY" !in env then Err("DEFAULT_TRANSCRIPT_OBJECT_KEY")
    else
      var inputBucket := env["INPUT_BUCKET"];
      Ok(Config(
        region,
        env["MODEL_ID"],
        inputBucket,
        env["DEFAULT_TRANSCRIPT_OBJECT_KEY"],
        EnvOr(env, "OUTPUT_BUCKET", inputBucket),
        EnvOr(env, "OUTPUT_OBJECT_KEY", ""),
        EnvOr(env, "OUTPUT_PREFIX", "")))
  }

  // ---------------------------------------------------------------------------
  // The invocation event

  /** One entry of a storage notification's `Records`: its `s3.bucket.name` and
      `s3.object.key`, `None` where that path is missing from the record. */
  datatype Record = Record(bucketName: Option<string>, objectKey: Option<string>)

  /** An override field of a dict event, as `event.get` sees it. */
  datatype Field = Absent | Null | Text(s: string)

  /** The event: not a dict at all, or a dict with an optional `Records` list
      (`None` for missing or null) and the two optional output overrides. */
  datatype Event =
    | NotADict
    | Dict(records: Option<seq<Record>>, outputBucket: Field, outputObjectKey: Field)

  /** A bucket and an object key in object storage. */
  datatype Location = Location(bucket: string, key: string)

  /** `isinstance(event, dict) and event.get("Records")`: a non-empty list. */
  predicate HasRecords(event: Event) {
    event.Dict? && event.records.Some? && event.records.value != []
  }

  // ---------------------------------------------------------------------------
  // Input resolver

  /** `_get_input_from_event`: the first notification record's bucket and
      decoded key, or the configured default object. */
  function InputFromEvent(cfg: Config, event: Event): (r: Result<Location, LookupError>)
    ensures !HasRecords(event) ==> r == Ok(Location(cfg.inputBucket, cfg.defaultTranscriptKey))
    ensures HasRecords(event) ==>
      var first := event.records.value[0];
      && (r.Ok? <==> first.bucketName.Some? && first.objectKey.Some?)
      && (r.Err? ==> r.error == KeyError)
      && (r.Ok? ==> r.value.bucket == first.bucketName.value)
      && (r.Ok? ==> r.value.key == UnquotePlus(first.objectKey.value))
  {
    if HasRecords(event) then
      var first := event.records.value[0];
      if first.bucketName.None? || first.objectKey.None? then Err(KeyError)
      else Ok(Location(first.bucketName.value, UnquotePlus(first.objectKey.value)))
    else
      Ok(Location(cfg.inputBucket, cfg.defaultTranscriptKey))
  }

  // ---------------------------------------------------------------------------
  // Output resolver

  /** `event.get(name, default)` on a dict event; `None` is JSON null. */
  function Get(f: Field, default: string): Option<string> {
    match f
    case Absent => Some(default)
    case Null => None
    case Text(s) => Some(s)
  }

  /** Python truthiness of a value that is `None` or a string. */
  predicate Truthy(v: Option<string>) {
    v.Some? && v.value != []
  }

  const SummarySuffix: string := ".summary.json"

  /** The file name of `inputKey` without its last extension. */
  function Stem(inputKey: string): (stem: string)
    ensures NoSlash(stem)
  {
    var name := Basename(inputKey);
    assert forall i | 0 <= i < |SplitExt(name).0| :: SplitExt(name).0[i] == name[i];
    SplitExt(name).0
  }

  /** `folder.rstrip('/') + "/" + name` for a non-empty folder, `name` alone otherwise. */
  function JoinFolder(folder: string, name: string): (path: string)
    requires NoSlash(name)
    ensures Basename(path) == name
  {
    if folder != [] then
      JoinedBasename(RStrip(folder, '/'), name);
      RStrip(folder, '/') + "/" + name
    else
      name
  }

  lemma {:induction false} NoSlashInSuffixed(base: string)
    requires NoSlash(base)
    ensures NoSlash(base + SummarySuffix)
  {
    assert forall i | |base| <= i < |base| + |SummarySuffix| :: (base + SummarySuffix)[i] == SummarySuffix[i - |base|];
  }

  /** The key derived when no explicit key applies: `<folder>/<base>.summary.json`,
      the folder being the prefix or else the input key's directory, stripped of
      trailing slashes; `<base>.summary.json` when the folder is empty. */
  function DerivedKey(prefix: string, inputKey: string): (key: string)
    ensures Basename(key) == Stem(inputKey) + SummarySuffix
  {
    var base := Stem(inputKey);
    var folder := if prefix != [] then prefix else Dirname(inputKey);
    NoSlashInSuffixed(base);
    JoinFolder(folder, base + SummarySuffix)
  }

  /** `_get_output`: the destination of the summary document. */
  function OutputFor(cfg: Config, event: Event, inBucket: string, inputKey: string): (out: Location)
    ensures out.key != []
    ensures out.bucket == [] ==> inBucket == []
    // the object key
    ensures event.Dict? && event.outputObjectKey.Text? && event.outputObjectKey.s != [] ==>
      out.key == event.outputObjectKey.s
    ensures (event.NotADict? || event.outputObjectKey.Absent?) && cfg.outputObjectKey != [] ==>
      out.key == cfg.outputObjectKey
    ensures event.Dict? && event.outputObjectKey in {Null, Text([])} ==>
      out.key == DerivedKey(cfg.outputPrefix, inputKey)
    ensures (event.NotADict? || event.outputObjectKey.Absent?) && cfg.outputObjectKey == [] ==>
      out.key == DerivedKey(cfg.outputPrefix, inputKey)
    // the bucket
    ensures event.Dict? && event.outputBucket.Text? && event.outputBucket.s != [] ==>
      out.bucket == event.outputBucket.s
    ensures (event.NotADict? || event.outputBucket.Absent?) ==>
      out.bucket == if cfg.outputBucket != [] then cfg.outputBucket else inBucket
    ensures event.Dict? && event.outputBucket in {Null, Text([])} ==> out.bucket == inBucket
  {
    var outBucket := if event.Dict? then Get(event.outputBucket, cfg.outputBucket) else Some(cfg.outputBucket);
    var outKey := if event.Dict? then Get(event.outputObjectKey, cfg.outputObjectKey) else Some(cfg.outputObjectKey);
    var key := if Truthy(outKey) then outKey.value else DerivedKey(cfg.outputPrefix, inputKey);
    var bucket := if Truthy(outBucket) then outBucket.value else inBucket;
    Location(bucket, key)
  }

  // ---------------------------------------------------------------------------
  // The handler's pure pieces

  /** The fixed instruction: a three-point summary of the call in standard Hebrew. */
  const Instruction: string := "סכם את השיחה בשלוש נקודות בעברית תקנית."

  /** The separator between the instruction and the transcript: a blank line, "Text:", a newline. */
  const Separator: string := "\n\nטקסט:\n"

  /** `user_msg`: the instruction, the separator, then the transcript. */
  function UserMessage(transcript: string): (msg: string)
    ensures |msg| == |Instruction| + |Separator| + |transcript|
    ensures msg[..|Instruction|] == Instruction
    ensures msg[|Instruction|..|Instruction| + |Separator|] == Separator
    ensures msg[|msg| - |transcript|..] == transcript
  {
    Instruction + Separator + transcript
  }

  const AnthropicVersion: string := "bedrock-2023-05-31"
  const MaxTokens: int := 400

  /** The request `payload`: one user message with one text part. */
  function RequestBody(userMsg: string): Json {
    JObject(map[
      "anthropic_version" := JString(AnthropicVersion),
      "max_tokens" := JNumber(MaxTokens),
      "messages" := JArray([
        JObject(map[
          "role" := JString("user"),
          "content" := JArray([JObject(map["type" := JString("text"), "text" := JString(userMsg)])])
        ])
      ])
    ])
  }

  /** `output_doc`. */
  function OutputDocument(job: string, model: string, prompt: string, summary: Json): Json {
    JObject(map[
      "job" := JString(job),
      "model" := JString(model),
      "prompt" := JString(prompt),
      "summary" := summary])
  }

  const JsonContentType: string := "application/json"
  const DocumentContentType: string := "application/json; charset=utf-8"

  /** `transcribe_json["results"]["transcripts"][0]["transcript"]`. */
  const TranscriptPath: seq<Key> := [Name("results"), Name("transcripts"), Index(0), Name("transcript")]

  /** `body["content"][0]["text"]`. */
  const SummaryPath: seq<Key> := [Name("content"), Index(0), Name("text")]

  // ---------------------------------------------------------------------------
  // The handler

  /** A call the handler makes to a service, with its arguments. */
  datatype Effect =
    | GetObject(bucket: string, key: string)
    | InvokeModel(modelId: string, contentType: string, accept: string, body: Json)
    | PutObject(bucket: string, key: string, body: Json, contentType: string)

  datatype Failure =
    | NoSuchObject             // the storage read finds nothing at the input location
    | Raised(error: LookupError)
    | TranscriptNotText        // the transcript field holds a JSON value other than a string

  /** What the returned status record reports: where the input came from and the summary went. */
  datatype Status = Status(input: Location, output: Location)

  /** `lambda_handler`. `objects` holds the parsed JSON body of every stored
      object; `reply` is the parsed body the model service answers with. The
      service calls made are returned in order in `effects`. */
  method Handle(cfg: Config, event: Event, objects: map<Location, Json>, reply: Json)
    returns (effects: seq<Effect>, result: Result<Status, Failure>)
    // a document is written exactly when the invocation succeeds, and as its last call;
    // a failed invocation has made at most the read and the model call
    ensures result.Ok? ==> |effects| == 3 && effects[2].PutObject?
    ensures result.Err? ==> |effects| <= 2 && (|effects| == 2 ==> effects[1].InvokeModel?)
    // a failure to resolve the input happens before any call
    ensures InputFromEvent(cfg, event).Err? ==>
      effects == [] && result == Err(Raised(InputFromEvent(cfg, event).error))
    // a transcript document without the transcript fails before the model is called
    ensures InputFromEvent(cfg, event).Ok? ==>
      var src := InputFromEvent(cfg, event).value;
      && |effects| > 0 && effects[0] == GetObject(src.bucket, src.key)
      && (src !in objects ==> effects == [effects[0]] && result == Err(NoSuchObject))
      && (src in objects && Lookup(objects[src], TranscriptPath).Err? ==>
            effects == [effects[0]] && result == Err(Raised(Lookup(objects[src], TranscriptPath).error)))
    // it succeeds whenever the input resolves, the object is stored, its
    // transcript is a string and the reply carries the summary
    ensures InputFromEvent(cfg, event).Ok? ==>
      var src := InputFromEvent(cfg, event).value;
      (&& src in objects
       && Lookup(objects[src], TranscriptPath).Ok?
       && Lookup(objects[src], TranscriptPath).value.JString?
       && Lookup(reply, SummaryPath).Ok?)
      ==> result.Ok?
    // on success: what was read, what was asked, what was written
    ensures result.Ok? ==>
      var src, dst := result.value.input, result.value.output;
      && InputFromEvent(cfg, event) == Ok(src)
      && dst == OutputFor(cfg, event, src.bucket, src.key)
      && src in objects
      && Lookup(objects[src], TranscriptPath).Ok? && Lookup(objects[src], TranscriptPath).value.JString?
      && Lookup(reply, SummaryPath).Ok?
      && effects[1] == InvokeModel(cfg.modelId, JsonContentType, JsonContentType,
                                   RequestBody(UserMessage(Lookup(objects[src], TranscriptPath).value.s)))
      && effects[2] == PutObject(dst.bucket, dst.key,
                                 OutputDocument(src.key, cfg.modelId, Instruction, Lookup(reply, SummaryPath).value),
                                 DocumentContentType)
  {
    var input := InputFromEvent(cfg, event);
    if input.Err? {
      return [], Err(Raised(input.error));
    }
    var src := input.value;
    var read := GetObject(src.bucket, src.key);
    if src !in objects {
      return [read], Err(NoSuchObject);
    }
    var transcript := Lookup(objects[src], TranscriptPath);
    if transcript.Err? {
      return [read], Err(Raised(transcript.error));
    }
    if !transcript.value.JString? {
      return [read], Err(TranscriptNotText);
    }
    var invoke := InvokeModel(cfg.modelId, JsonContentType, JsonContentType, RequestBody(UserMessage(transcript.value.s)));
    var summary := Lookup(reply, SummaryPath);
    if summary.Err? {
      return [read, invoke], Err(Raised(summary.error));
    }
    var dst := OutputFor(cfg, event, src.bucket, src.key);
    var doc := OutputDocument(src.key, cfg.modelId, Instruction, summary.value);
    effects := [read, invoke, PutObject(dst.bucket, dst.key, doc, DocumentContentType)];
    result := Ok(Status(src, dst));
  }
}
