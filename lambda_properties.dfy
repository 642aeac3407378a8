/**
 * What the resolvers and the handler's pure pieces promise, stated over all
 * inputs, with a few concrete keys worked through.
 */
module LambdaProperties {
  import opened Wrappers
  import opened PosixPath
  import opened UrlDecode
  import opened Json
  import opened Lambda
  import opened Seqs

  // ---------------------------------------------------------------------------
  // Where the transcript is read from

  /** Records after the first never change the input location. */
  lemma {:induction false} FirstRecordOnly(cfg: Config, first: Record, rest1: seq<Record>, rest2: seq<Record>,
                                           bucket: Field, key: Field)
    ensures InputFromEvent(cfg, Dict(Some([first] + rest1), bucket, key)) ==
            InputFromEvent(cfg, Dict(Some([first] + rest2), bucket, key))
  {
  }

  /** A notification carries the object key `quote_plus`-encoded; the resolver
      gets the original key back, whatever characters it holds. */
  lemma {:induction false} NotificationKeyDecoded(cfg: Config, bucket: string, key: string,
                                                  rest: seq<Record>, outBucket: Field, outKey: Field)
    ensures InputFromEvent(cfg, Dict(Some([Record(Some(bucket), Some(QuotePlus(key)))] + rest), outBucket, outKey))
            == Ok(Location(bucket, key))
  {
    UnquotePlusQuotePlus(key);
  }

  /** The resolved key is never longer than the key in the notification. */
  lemma {:induction false} InputKeyNotLonger(cfg: Config, event: Event)
    requires HasRecords(event) && InputFromEvent(cfg, event).Ok?
    ensures |InputFromEvent(cfg, event).value.key| <= |event.records.value[0].objectKey.value|
  {
    UnquotePlusLength(event.records.value[0].objectKey.value);
  }

  /** `+` is a space. */
  lemma {:induction false} PlusBecomesSpace()
    ensures UnquotePlus("my+call.json") == "my call.json"
  {
    var s := "my+call.json";
    assert forall i | 0 <= i < |s| :: s[i] != '%';
    UnquotePlusNoEscapes(s);
  }

  /** A `%` without two hex digits after it stays as it is. */
  lemma {:induction false} LonePercentKept()
    ensures UnquotePlus("100%.json") == "100%.json"
  {
    var s := "100%.json";
    assert !EscapeAt(s, 3);
    assert forall i | 0 <= i < |s| && i != 3 :: s[i] != '%';
    UnquotePlusNoEscapes(s);
  }

  // ---------------------------------------------------------------------------
  // The derived output key

  /** The derived key's file name is the input's file name with its last
      extension replaced by `.summary.json`; the extension removed is empty or a
      `.` followed by neither `.` nor `/`. */
  lemma {:induction false} DerivedKeyReplacesExtension(prefix: string, inputKey: string)
    ensures var key := DerivedKey(prefix, inputKey);
      && |key| >= |SummarySuffix| && key[|key| - |SummarySuffix|..] == SummarySuffix
      && exists ext ::
           && Basename(inputKey) == Stem(inputKey) + ext
           && (ext == [] || ext[0] == '.')
           && (forall i | 1 <= i < |ext| :: ext[i] != '.' && ext[i] != '/')
  {
    EndsWithSuffix(DerivedKey(prefix, inputKey), Stem(inputKey));
    StemPlusExtension(inputKey);
  }

  lemma {:induction false} EndsWithSuffix(key: string, base: string)
    requires Basename(key) == base + SummarySuffix
    ensures |key| >= |SummarySuffix| && key[|key| - |SummarySuffix|..] == SummarySuffix
  {
    var name := Basename(key);
    assert name[|name| - |SummarySuffix|..] == SummarySuffix;
    assert key[|key| - |SummarySuffix|..] == name[|name| - |SummarySuffix|..];
  }

  lemma {:induction false} StemPlusExtension(inputKey: string)
    ensures exists ext ::
      && Basename(inputKey) == Stem(inputKey) + ext
      && (ext == [] || ext[0] == '.')
      && (forall i | 1 <= i < |ext| :: ext[i] != '.' && ext[i] != '/')
  {
    SplitExtShape(Basename(inputKey));
    var ext := SplitExt(Basename(inputKey)).1;
    assert Basename(inputKey) == Stem(inputKey) + ext;
  }

  /** A prefix replaces the input's directory: the key is the prefix without its
      trailing slashes, one `/`, and the file name. */
  lemma {:induction false} PrefixReplacesDirectory(prefix: string, inputKey: string)
    requires prefix != []
    ensures DerivedKey(prefix, inputKey) == RStrip(prefix, '/') + "/" + (Stem(inputKey) + SummarySuffix)
    ensures Head(DerivedKey(prefix, inputKey)) == RStrip(prefix, '/') + "/"
  {
    NoSlashInSuffixed(Stem(inputKey));
    JoinedBasename(RStrip(prefix, '/'), Stem(inputKey) + SummarySuffix);
  }

  /** With a prefix, where the input lived does not matter, only its file name. */
  lemma {:induction false} PrefixIgnoresInputDirectory(prefix: string, key1: string, key2: string)
    requires prefix != [] && Basename(key1) == Basename(key2)
    ensures DerivedKey(prefix, key1) == DerivedKey(prefix, key2)
  {
    PrefixReplacesDirectory(prefix, key1);
    PrefixReplacesDirectory(prefix, key2);
  }

  /** Without a prefix, a key in no directory gives a key in no directory: no
      leading `/` is added. */
  lemma {:induction false} EmptyFolderNoSlash(inputKey: string)
    requires NoSlash(inputKey)
    ensures DerivedKey("", inputKey) == Stem(inputKey) + SummarySuffix
    ensures NoSlash(DerivedKey("", inputKey))
  {
    NoSlashInSuffixed(Stem(inputKey));
  }

  /** Without a prefix, the summary is written next to the transcript: the key
      is the input key with its last extension replaced, as long as the
      directory does not end in two slashes (which `dirname` would collapse). */
  lemma {:induction false} NoPrefixKeepsDirectory(inputKey: string)
    requires var h := Head(inputKey); |h| < 2 || h[|h| - 2] != '/'
    ensures DerivedKey("", inputKey) == SplitExt(inputKey).0 + SummarySuffix
  {
    RootWithSuffix(inputKey);
    if Head(inputKey) == [] {
      DerivedKeyAtTop(inputKey);
    } else {
      DerivedKeyBesideInput(inputKey);
    }
  }

  /** The input key without its extension, then the suffix. */
  lemma {:induction false} RootWithSuffix(inputKey: string)
    ensures SplitExt(inputKey).0 + SummarySuffix == Head(inputKey) + (Stem(inputKey) + SummarySuffix)
  {
    SplitExtOfPath(inputKey);
    Assoc(Head(inputKey), Stem(inputKey), SummarySuffix);
  }

  lemma {:induction false} DerivedKeyAtTop(inputKey: string)
    requires Head(inputKey) == []
    ensures DerivedKey("", inputKey) == Head(inputKey) + (Stem(inputKey) + SummarySuffix)
  {
    DirnameStripsHead(inputKey);
  }

  lemma {:induction false} DerivedKeyBesideInput(inputKey: string)
    requires var h := Head(inputKey); h != [] && (|h| < 2 || h[|h| - 2] != '/')
    ensures DerivedKey("", inputKey) == Head(inputKey) + (Stem(inputKey) + SummarySuffix)
  {
    var h := Head(inputKey);
    DirnameSingleSlash(inputKey);
    DerivedKeyInDirectory(inputKey);
    assert h[..|h| - 1] + "/" == h;
  }

  /** Without a prefix, the folder is the input's head with its trailing
      slashes stripped, however many there are; a head made only of slashes
      leaves the key starting at the root `/`. */
  lemma {:induction false} DerivedKeyUnderHead(inputKey: string)
    requires Head(inputKey) != []
    ensures DerivedKey("", inputKey) == RStrip(Head(inputKey), '/') + "/" + (Stem(inputKey) + SummarySuffix)
    ensures AllSlashes(Head(inputKey)) ==> DerivedKey("", inputKey) == "/" + (Stem(inputKey) + SummarySuffix)
  {
    DirnameStripsHead(inputKey);
    DerivedKeyInDirectory(inputKey);
    if AllSlashes(Head(inputKey)) {
      RStripUnique(Head(inputKey), '/', []);
      assert RStrip(Head(inputKey), '/') + "/" == "/";
    }
  }

  lemma {:induction false} DerivedKeyInDirectory(inputKey: string)
    requires Dirname(inputKey) != []
    ensures DerivedKey("", inputKey) == RStrip(Dirname(inputKey), '/') + "/" + (Stem(inputKey) + SummarySuffix)
  {
  }

  // ---------------------------------------------------------------------------
  // The output location

  /** The bucket never depends on the input key. */
  lemma {:induction false} BucketIndependentOfKey(cfg: Config, event: Event, inBucket: string, key1: string, key2: string)
    ensures OutputFor(cfg, event, inBucket, key1).bucket == OutputFor(cfg, event, inBucket, key2).bucket
  {
  }

  /** When no explicit or configured key applies, the output key is the derived one. */
  lemma {:induction false} OutputKeyDerived(cfg: Config, event: Event, inBucket: string, inputKey: string)
    requires cfg.outputObjectKey == [] && (event.NotADict? || !event.outputObjectKey.Text? || event.outputObjectKey.s == [])
    ensures OutputFor(cfg, event, inBucket, inputKey).key == DerivedKey(cfg.outputPrefix, inputKey)
  {
  }

  // ---------------------------------------------------------------------------
  // The request and the document

  /** The transcript can be read back from the message it was put into. */
  lemma {:induction false} UserMessageInjective(t1: string, t2: string)
    requires UserMessage(t1) == UserMessage(t2)
    ensures t1 == t2
  {
    var m := UserMessage(t1);
    assert t1 == m[|m| - |t1|..];
  }

  /** The message travels at `messages[0].content[0].text` of the request, with a
      400-token budget. */
  lemma {:induction false} RequestBodyCarriesMessage(userMsg: string)
    ensures Lookup(RequestBody(userMsg), [Name("messages"), Index(0), Name("content"), Index(0), Name("text")])
            == Ok(JString(userMsg))
    ensures Lookup(RequestBody(userMsg), [Name("max_tokens")]) == Ok(JNumber(400))
  {
  }

  /** The document names the input key as its job and records the instruction
      alone as its prompt, not the transcript. */
  lemma {:induction false} OutputDocumentFields(job: string, model: string, summary: Json)
    ensures Lookup(OutputDocument(job, model, Instruction, summary), [Name("job")]) == Ok(JString(job))
    ensures Lookup(OutputDocument(job, model, Instruction, summary), [Name("prompt")]) == Ok(JString(Instruction))
    ensures Lookup(OutputDocument(job, model, Instruction, summary), [Name("summary")]) == Ok(summary)
  {
  }
}
