# Call-summary Lambda, modelled in Dafny

The function is triggered by an object-storage notification, or invoked
directly. It reads a speech-to-text transcript document and asks a language
model for a three-point Hebrew summary. It then writes a JSON document with the
summary to a destination that the event or the environment chooses. This
project models that core:

- the configuration read from the environment;
- the input resolver `_get_input_from_event`, including the `unquote_plus`
  decoding of the notification's object key;
- the output resolver `_get_output`, including `basename`, `dirname`,
  `splitext` and `rstrip` on `/`-separated keys;
- the fixed prompt, the request payload and the output document;
- the handler itself, as a method that returns the service calls it makes.

Modules:

- `Wrappers`: `Option` and `Result`.
- `Seqs`: associativity of concatenation, shared by the proofs.
- `Utf8`: CPython's UTF-8 decoder with `errors='replace'`, and its encoder.
- `UrlDecode`: CPython's `unquote`, `unquote_plus` and `unquote_to_bytes`, as
  CPython writes them, and `quote_plus` as a per-byte table that computes the
  same result as CPython's `quote(s, safe + ' ')` followed by
  `replace(' ', '+')`.
- `PosixPath`: `rfind`, `basename`, `dirname`, `splitext` and `rstrip`.
- `Json`: parsed JSON values, and Python's `v[k]` on them, with the exception
  a failing subscript raises.
- `Lambda`: the configuration, the event, the two resolvers and the handler.
- `LambdaProperties`: properties that relate several calls, over all inputs.

Service calls are not made here. The handler receives the stored objects (as
parsed JSON), and the model's reply (as parsed JSON), as parameters. It
returns the calls it would make, in order, with their arguments:
`GetObject`, `InvokeModel`, `PutObject`.

Modelling choices:

- The code only probes `isinstance(event, dict)`, so the model's event is
  `NotADict`, or a dict with an optional `Records` list and the two override
  fields.
- A key in a notification is decoded with `unquote_plus` exactly as CPython
  does it. ASCII runs are percent-decoded byte by byte and decoded as UTF-8
  with `errors='replace'`; other characters are kept.

## Model

| member | source | states |
|---|---|---|
| `Lambda.ConfigFromEnvironment` | lambda_function.py:9-16 | Succeeds exactly when `MODEL_ID`, `INPUT_BUCKET` and `DEFAULT_TRANSCRIPT_OBJECT_KEY` are all set. A failure names a missing variable, in the order `MODEL_ID`, `INPUT_BUCKET`, `DEFAULT_TRANSCRIPT_OBJECT_KEY`. The required values are taken verbatim, and the region is `REGION` or `eu-central-1`. `OUTPUT_BUCKET`, `OUTPUT_OBJECT_KEY` and `OUTPUT_PREFIX` are taken verbatim when set; otherwise the bucket defaults to the input bucket and the other two to empty. |
| `Lambda.InputFromEvent` | lambda_function.py:19-25 | Without a non-empty `Records` list (or for a non-dict event), gives the configured bucket and default key. Otherwise reads only the first record: it succeeds exactly when that record has both the bucket name and the key, and otherwise raises `KeyError`. The bucket is taken verbatim and the key is `unquote_plus` of the record's key. |
| `LambdaProperties.FirstRecordOnly` | lambda_function.py:21 | Records after the first never change the resolved input. |
| `LambdaProperties.NotificationKeyDecoded` | lambda_function.py:23 | For every key, a notification that carries `quote_plus(key)` resolves to that key, in the record's bucket. |
| `LambdaProperties.InputKeyNotLonger` | lambda_function.py:23 | The resolved key is never longer than the key in the notification. |
| `LambdaProperties.PlusBecomesSpace` | lambda_function.py:23 | `my+call.json` decodes to `my call.json`. |
| `LambdaProperties.LonePercentKept` | lambda_function.py:23 | `100%.json` decodes to itself: a `%` without two hex digits after it is kept. |
| `UrlDecode.UnquotePlusQuotePlus` | lambda_function.py:23 | `unquote_plus(quote_plus(s)) == s` for every string. |
| `UrlDecode.UnquotePlusNoEscapes` | lambda_function.py:23 | A key without a `%`-and-two-hex-digits escape decodes to itself with only `+` turned into a space. |
| `UrlDecode.UnquoteAscii` | lambda_function.py:23 | On ASCII text, `unquote` is left-to-right percent-decoding of the bytes, followed by one UTF-8 decode. |
| `UrlDecode.UnquoteIsDecodeRuns` | lambda_function.py:23 | The `%`-free early return of `unquote` agrees with its general path. |
| `UrlDecode.UnquotePlusLength` | lambda_function.py:23 | `unquote_plus` never returns more characters than it was given. |
| `UrlDecode.DecodeRunsLength` | lambda_function.py:23 | The general path of `unquote` never lengthens its input. |
| `UrlDecode.DecodeRunsNoEscapes` | lambda_function.py:23 | Text without an escape comes back unchanged from the run-by-run decoding. |
| `UrlDecode.DecodeAsciiRun` | lambda_function.py:23 | An ASCII run without escapes survives `unquote_to_bytes` followed by the UTF-8 decode. |
| `UrlDecode.PercentDecodeNoEscapes` | lambda_function.py:23 | ASCII text without an escape percent-decodes to its own bytes. |
| `UrlDecode.UnquoteMatchesPercentDecode` | lambda_function.py:23 | CPython's split-on-`%` `unquote_to_bytes` equals percent-decoding read left to right (section 2.1 of RFC 3986), for all bytes. |
| `UrlDecode.UnquoteItemsMatch` | lambda_function.py:23 | The pieces after a `%` decode exactly as the bytes after that `%` do. |
| `UrlDecode.UnquoteOrdinaryByte` | lambda_function.py:23 | A byte other than `%` is copied by both decoders. |
| `UrlDecode.UnquoteEscape` | lambda_function.py:23 | `%` and two hex digits give the byte they spell, in both decoders. |
| `UrlDecode.UnquoteLonePercent` | lambda_function.py:23 | `%` without two hex digits stays `%`, in both decoders. |
| `UrlDecode.PercentDecodeEscape` | lambda_function.py:23 | Percent-decoding turns a leading escape into its byte and goes on after it. |
| `UrlDecode.PercentDecodeLonePercent` | lambda_function.py:23 | Percent-decoding keeps a leading lone `%` and goes on after it. |
| `UrlDecode.EscapeFirstPiece` | lambda_function.py:23 | After an escape, `split(b'%')` puts the two digits in front of the first piece of the rest. |
| `UrlDecode.LonePercentFirstPiece` | lambda_function.py:23 | The piece after a lone `%` does not start with two hex digits either. |
| `UrlDecode.PercentDecodeQuoted` | lambda_function.py:23 | Percent-decoding the UTF-8 bytes of `quote_plus` output (with `+` read back as a space) gives back the quoted bytes. |
| `UrlDecode.PercentDecodeQuotedByte` | lambda_function.py:23 | One quoted byte decodes to itself. |
| `UrlDecode.PercentDecodeEscapedByte` | lambda_function.py:23 | A byte that `quote_plus` escapes as `%XX` decodes back to that byte. |
| `UrlDecode.EncodeAscii` | lambda_function.py:23 | UTF-8 encodes ASCII text as one byte per character, its code point. |
| `UrlDecode.EncodeAppend` | lambda_function.py:23 | UTF-8 encoding distributes over concatenation. |
| `UrlDecode.ReplacePlus` | lambda_function.py:23 | `replace('+', ' ')` keeps the length and changes exactly the `+` characters. |
| `UrlDecode.AsciiRunLength` | lambda_function.py:23 | The length of the longest ASCII prefix: everything before it is ASCII, and the character after it is not. |
| `UrlDecode.SplitPercent` | lambda_function.py:23 | `split(b'%')` gives at least one piece, and the first piece is a prefix of the input. |
| `UrlDecode.SplitPercentNoPercent` | lambda_function.py:23 | No piece of `split(b'%')` holds a `%`. |
| `UrlDecode.SplitPercentJoin` | lambda_function.py:23 | `b'%'.join` of the pieces of `split(b'%')` is the input: the split cuts exactly at the percent signs. |
| `UrlDecode.JoinOrdinaryByte` | lambda_function.py:23 | A byte put in front of the first piece is put in front of the joined bytes. |
| `UrlDecode.PercentDecode` | lambda_function.py:23 | Percent-decoding never lengthens its input. |
| `UrlDecode.HexValue` | lambda_function.py:23 | A hex digit's value is below 16. |
| `UrlDecode.HexDigit` | lambda_function.py:23 | The digit chosen for a value below 16 is a hex digit with that value. |
| `UrlDecode.QuoteBytes` | lambda_function.py:23 | Quoting produces ASCII text only. |
| `UrlDecode.QuotePlus` | lambda_function.py:23 | `quote_plus` produces ASCII text only. |
| `Utf8.DecodeEncode` | lambda_function.py:23 | Decoding undoes encoding, for every string. |
| `Utf8.DecodeAscii` | lambda_function.py:23 | Bytes below 0x80 decode one to one into the characters with those code points. |
| `Utf8.DecodeWellFormed` | lambda_function.py:23 | A well-formed sequence at the front decodes to the character it encodes, and decoding goes on after it. |
| `Utf8.Decode` | lambda_function.py:23 | Decoding with replacement gives at most one character per byte. |
| `Utf8.EncodeChar` | lambda_function.py:23 | Every character encodes to a well-formed sequence that decodes back to it. |
| `Utf8.Encode` | lambda_function.py:23 | Encoding gives at least one byte per character. |
| `Utf8.CodePoint` | lambda_function.py:23 | The length of a well-formed sequence determines its code-point range (1 byte below 0x80, 2 below 0x800, 3 below 0x10000, 4 above). |
| `Utf8.SequenceLength` | lambda_function.py:23 | A lead byte announces at most 4 bytes, and exactly 1 when it is below 0x80. |
| `Utf8.AcceptedPrefix` | lambda_function.py:23 | The bytes taken for one step of the decoder: all `n` exactly when the `n` bytes are well-formed. Otherwise it is the maximal prefix whose every byte continues the sequence, at least 1: each byte taken continues it, and the next byte is missing or does not. |
| `Utf8.AsciiChars` | lambda_function.py:23 | Each character has its byte's value as code point. |
| `Lambda.OutputFor` | lambda_function.py:28-42 | A non-empty explicit key in a dict event wins. Otherwise the configured key applies when the event has no override. An override of `None` or `""`, or an empty configured key, gives the derived key. The bucket follows the same rules and falls back to the input bucket. The key is never empty, and the bucket is empty only when the input bucket is. |
| `LambdaProperties.OutputKeyDerived` | lambda_function.py:36-39 | Without an explicit or configured key, the output key is the derived key. |
| `LambdaProperties.BucketIndependentOfKey` | lambda_function.py:41 | The output bucket never depends on the input key. |
| `Lambda.DerivedKey` | lambda_function.py:37-39 | The derived key's last component is the input's file name without its extension, followed by `.summary.json`. |
| `Lambda.Stem` | lambda_function.py:37 | The base name without its extension holds no `/`. |
| `Lambda.JoinFolder` | lambda_function.py:39 | The joined key's last component is the file name. |
| `Lambda.NoSlashInSuffixed` | lambda_function.py:39 | Appending `.summary.json` to a name without `/` keeps it without `/`. |
| `LambdaProperties.DerivedKeyReplacesExtension` | lambda_function.py:37-39 | The derived key ends in `.summary.json`. The input's file name is that base followed by an extension that is empty, or a `.` with no `.` or `/` after it. |
| `LambdaProperties.PrefixReplacesDirectory` | lambda_function.py:38-39 | With a prefix, the key is the prefix without its trailing slashes, one `/`, the base and `.summary.json`. Its directory part is exactly that prefix and slash. |
| `LambdaProperties.PrefixIgnoresInputDirectory` | lambda_function.py:38-39 | With a prefix, two inputs with the same file name get the same key. |
| `LambdaProperties.EmptyFolderNoSlash` | lambda_function.py:39 | Without a prefix, an input without `/` gives `<base>.summary.json`, with no leading `/`. |
| `LambdaProperties.NoPrefixKeepsDirectory` | lambda_function.py:37-39 | Without a prefix, the summary goes next to the transcript: the input key with its last extension replaced by `.summary.json`, unless its directory ends in two slashes. |
| `LambdaProperties.RootWithSuffix` | lambda_function.py:37 | The input key without its extension is its directory part followed by the base. |
| `LambdaProperties.DerivedKeyAtTop` | lambda_function.py:39 | An input in no directory gets the key `<base>.summary.json`. |
| `LambdaProperties.DerivedKeyBesideInput` | lambda_function.py:38-39 | An input in a directory that ends in one `/` gets the key `<that directory><base>.summary.json`. |
| `LambdaProperties.DerivedKeyUnderHead` | lambda_function.py:38-39 | Without a prefix and for an input in a directory, the key is the input's head with all its trailing slashes stripped, one `/`, the base and `.summary.json`. A head made only of slashes gives `/<base>.summary.json`. |
| `PosixPath.LastIndexOf` | lambda_function.py:37-38 | `rfind`: -1 or an index holding the character, with none of it after that index. |
| `PosixPath.LastIndexOfAt` | lambda_function.py:37-38 | An occurrence with none after it is what `rfind` returns. |
| `PosixPath.LastIndexOfPrefix` | lambda_function.py:37 | Cutting after the last occurrence does not move it. |
| `PosixPath.LastIndexOfSuffix` | lambda_function.py:37 | The last occurrence in a suffix is the last occurrence in the whole, shifted, or -1. |
| `PosixPath.Basename` | lambda_function.py:37 | The base name is a suffix of the path with no `/`, and a `/` precedes it when it is not the whole path. |
| `PosixPath.Head` | lambda_function.py:38 | The path is its head followed by its base name, and the head is empty or ends in `/`. |
| `PosixPath.Dirname` | lambda_function.py:38 | `dirname` is the head of the path (everything up to the last `/`) with its trailing slashes removed, unless the head is made only of slashes, in which case it is the head itself. It is empty exactly when the path has no `/`. |
| `PosixPath.DirnameStripsHead` | lambda_function.py:38-39 | `dirname` and the head are empty together, and stripping trailing slashes from either gives the same folder. |
| `PosixPath.DirnameSingleSlash` | lambda_function.py:38-39 | When the head ends in one `/`, `dirname` stripped of trailing slashes is the head without that `/`. |
| `PosixPath.SplitExt` | lambda_function.py:37 | `splitext` cuts the path into two parts that concatenate back to it. |
| `PosixPath.SplitExtShape` | lambda_function.py:37 | The extension holds no `/`, and is empty or a `.` with no further `.`. When it is non-empty, the root's last component is not made only of dots, as `splitext` skips leading dots. |
| `PosixPath.ExtensionShape` | lambda_function.py:37 | The text from the last `.` of the last component on holds no `/` and no further `.`. |
| `PosixPath.SplitExtName` | lambda_function.py:37 | A file name loses an extension exactly when some `.` in it has a character other than `.` before it. |
| `PosixPath.SplitExtOfPath` | lambda_function.py:37 | `splitext` of the path and `splitext` of its base name take off the same extension. |
| `PosixPath.JoinedBasename` | lambda_function.py:39 | The base name of `x + "/" + y` is `y` (for `y` without `/`), and its head is `x + "/"`. |
| `PosixPath.RStrip` | lambda_function.py:39 | `rstrip(c)` gives a prefix that does not end in `c`, and everything cut off is `c`. |
| `PosixPath.RStripUnique` | lambda_function.py:39 | Those three facts determine `rstrip` uniquely. |
| `PosixPath.RStripIdempotent` | lambda_function.py:39 | Stripping twice strips nothing more. |
| `Json.Subscript` | lambda_function.py:50 | `v[k]` succeeds exactly on a dict with that key, or a list or str with that index. A success returns the dict's value for the key, the list's item at the index, or the one-character string at the index. A failing subscript of a dict raises `KeyError`, and an index out of range of a list or str raises `IndexError`. It raises `TypeError` exactly when `v` is none of a dict, a list indexed by an int, or a str indexed by an int. |
| `Json.LookupAppend` | lambda_function.py:50 | A chain of subscripts along `p + q` is the chain along `p` continued along `q`; the first failure is raised. |
| `Lambda.UserMessage` | lambda_function.py:52-53 | The message is the instruction, then the separator, then the transcript, each in its place. |
| `LambdaProperties.UserMessageInjective` | lambda_function.py:52-53 | Different transcripts give different messages. |
| `LambdaProperties.RequestBodyCarriesMessage` | lambda_function.py:55-61 | The message is at `messages[0].content[0].text` of the payload, and `max_tokens` is 400. |
| `LambdaProperties.OutputDocumentFields` | lambda_function.py:74 | The document's `job` is the input key, its `prompt` is the instruction alone, and its `summary` is the model's text. |
| `Lambda.Handle` | lambda_function.py:45-80 | An input that cannot be resolved raises before any call. Otherwise the transcript object is read first. A missing object, or a transcript path that fails, ends the run after that read. A write is made only on success, and as the third and last call. It succeeds whenever the input resolves, the object is stored, its transcript is a string and the reply carries `content[0].text`. On success the three calls are the read of the resolved input, the model call with the payload built from the transcript, and the write of the output document to the resolved output location. |

## Left out

- The storage and model services: boto3 clients, `get_object`, `invoke_model` and `put_object`. Stored objects and the model's reply are parameters (already parsed), and the calls are returned as data.
- The `REGION` variable only selects the model service's endpoint. The model keeps it in the configuration and uses it nowhere else.
- `json.loads` and `json.dumps` (with `ensure_ascii=False`) and the `utf-8` encoding of request and document bodies: the model works on parsed JSON values.
- The status record returned at lines 82-87 is text formatting only. The model returns the input and output locations it reports.
- A transcript value that is JSON null, a number, a boolean, a list or an object. The source formats it into the message with `str()`; the model reports `TranscriptNotText` instead of formatting it (for null the source sends a message ending in `None`).
- A `Records` value that is truthy but not a list, and record fields of the wrong JSON type. The model's event has a list of records whose fields are strings or missing; a missing field is the `KeyError` the source raises.
- Override fields of a type other than string or null.
- Lone surrogates in Python strings: the model's characters are Unicode scalar values.
- JSON numbers are integers in the model; no lookup depends on their value.
- Lambda.Handle: when the transcript is not a string, or the model's reply has no `content[0].text`, the contract bounds the calls made (the read, then at most the model call) but does not name the failure.
