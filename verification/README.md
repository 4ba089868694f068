# GameAI Publisher client: a Dafny model of its pure core

`scripts/publish_game.py` is the command-line client of the GameAI Publisher.
Its `upload-zip` subcommand sends a game archive as `multipart/form-data` to
`/api/upload`. Its `publish-files` subcommand sends a directory's files as a
JSON list to `/api/publish`. Around the network and filesystem plumbing sit a
few pure transformations, and this project models them and proves their
properties:

- **Endpoint** joins the base URL and an API path, after `_normalize_base_url`
  has stripped the base's trailing slashes.
- **Headers** parses the repeatable `--header 'Key: Value'` option into a
  header map, or reports the first malformed item (`_parse_header_items`).
- **Multipart** lays out the `upload-zip` request body and its content type
  (`_build_multipart_form`). The boundary's random part is a parameter
  `token`.
- **Payload** builds one entry of the `publish-files` list per file (the loop
  of `_load_files_for_publish`). An entry holds UTF-8 text or base 64 text of
  the file's bytes.
- **ExitStatus** is the exit code `_print_result` returns for a reply.

Supporting modules:

- **Text** is `str.strip` over Python's exact whitespace set, plus
  `split(":", 1)`.
- **Utf8** is a strict UTF-8 encoder and decoder following table 3-7 of the
  Unicode Standard, section 3.9. The two round trips are proved in both
  directions.
- **Base64** is the encoder of section 4 of RFC 4648. Encoders must set the
  bits before the padding to zero (section 3.5 of RFC 4648). The encoder's
  partner is a decoder that also refuses non-zero bits there, an option that
  section gives decoders. The round trip is proved in both directions, so
  the decoder accepts exactly the encoder's output.
- **Bytes** and **Wrappers** provide the octet type, `Option` and `Result`.

Python's `bytes` are `seq<byte>` with `byte` in 0..255, and `str` is
`seq<char>` (Unicode scalar values). A `ValueError` becomes an `Err` value.
The loops are sequences processed left to right.

## Model

| member | source | states |
|---|---|---|
| `Endpoint.NormalizeBaseUrl` | scripts/publish_game.py:24-25 | The result is a prefix of the input, the input continues with `/` only, and the result does not end in `/`. |
| `Endpoint.SlashTrimmedUnique` | scripts/publish_game.py:24-25 | Any prefix with that description is the normalized URL, so the description pins `rstrip("/")` down completely. |
| `Endpoint.NormalizeIdempotent` | scripts/publish_game.py:24-25 | Normalizing twice equals normalizing once. |
| `Endpoint.NormalizeIgnoresSlashes` | scripts/publish_game.py:24-25 | Appending any run of slashes to a base URL does not change its normalization. |
| `Endpoint.BuildEndpoint` | scripts/publish_game.py:28-29 | The endpoint ends with the path verbatim. What precedes the path is the base with its trailing slashes trimmed. |
| `Endpoint.EndpointIgnoresSlashes` | scripts/publish_game.py:28-29 | Extra trailing slashes on the base never reach the endpoint. |
| `Text.FindFirst` | scripts/publish_game.py:35 | Finds nothing exactly when the character is absent; otherwise gives the index of its first occurrence. |
| `Text.SplitFirst` | scripts/publish_game.py:37 | Fails exactly when the separator is absent. Otherwise the item is key + separator + value, and the key holds no separator, so the split is at the first one. |
| `Text.StripSpec` | scripts/publish_game.py:38-39 | `Strip` removes only whitespace, from both ends, and leaves no whitespace at either end of the result (or leaves the empty string). |
| `Text.StripUnique` | scripts/publish_game.py:38-39 | Any infix of the input with that description equals `Strip`'s result. |
| `Text.StripIdempotent` | scripts/publish_game.py:38-39 | Stripping twice equals stripping once. |
| `Headers.ParseItem` | scripts/publish_game.py:35-41 | An error always names the item. The error is "no colon" exactly when the item has no `:`. |
| `Headers.ParseItemSplits` | scripts/publish_game.py:37-41 | With the first colon at `i`, the item is accepted exactly when the text before `i` strips to something non-empty. The pair is then (stripped text before `i`, stripped text after `i`), so later colons stay in the value. A refusal is "empty key". |
| `Headers.KeyHasNoColon` | scripts/publish_game.py:37-38 | An accepted key never contains `:`. |
| `Headers.CollectOkIff` | scripts/publish_game.py:34-43 | The loop returns a map exactly when every item parsed. |
| `Headers.CollectFirstError` | scripts/publish_game.py:34-41 | A failure carries the error of the first item that did not parse; every earlier item parsed. |
| `Headers.CollectKeys` | scripts/publish_game.py:33-43 | On success the map's key set is exactly the set of the items' keys. |
| `Headers.CollectLastWins` | scripts/publish_game.py:42 | A key maps to the value of its last occurrence. |
| `Headers.ParseHeadersResult` | scripts/publish_game.py:32-43 | `_parse_header_items` succeeds exactly when every item parses. Otherwise it raises for the first item that does not, with that item's own error. |
| `Headers.ParseHeadersMap` | scripts/publish_game.py:32-43 | On success the map's keys are the stripped keys of the items (none for an empty list), and each key holds the stripped value of its last occurrence. |
| `Multipart.BuildForm` | scripts/publish_game.py:82-120 | The body is the part-by-part layout: one part per field in input order, then the file part, then the close-delimiter and CRLF. The content type is `multipart/form-data; boundary=----GamePublishBoundary<token>`. |
| `Multipart.JoinFieldChunks` | scripts/publish_game.py:93-101 | Each field's four chunks, joined with CRLF, give that field's part: `--B`, CRLF, its Content-Disposition line, CRLF, CRLF, its UTF-8 value, CRLF. |
| `Multipart.JoinTailChunks` | scripts/publish_game.py:103-117 | The file's chunks and the closing chunks, joined with CRLF, give the file part, then `--B--`, then CRLF. |
| `Multipart.BodyLayout` | scripts/publish_game.py:91-119 | `crlf.join(chunks)` equals the field parts, then the file part, then `--B--` CRLF. |
| `Multipart.FormStartsWithDelimiter` | scripts/publish_game.py:96-119 | The body starts with `--B`, whether or not there are fields. |
| `Multipart.FormEndsWithFile` | scripts/publish_game.py:110-119 | The body ends with CRLF CRLF, the file's bytes unaltered, CRLF, `--B--` and CRLF. |
| `Utf8.Encode` | scripts/publish_game.py:96-99 | `.encode("utf-8")` gives each scalar value 1 to 4 octets, so the output is between one and four times as long as the text. |
| `Utf8.Decode` | scripts/publish_game.py:144 | Decoded text has at most one character per octet and at least one per four octets. |
| `Utf8.DecodeEncode` | scripts/publish_game.py:96-99 | Decoding the UTF-8 encoding of any string gives the string back, so `.encode("utf-8")` loses nothing. |
| `Utf8.EncodeDecode` | scripts/publish_game.py:143-148 | Bytes that decode re-encode to exactly themselves, so the decoder accepts canonical UTF-8 only. |
| `Base64.Encode` | scripts/publish_game.py:153 | The encoding has 4 characters per started group of 3 octets. |
| `Base64.EncodeShape` | scripts/publish_game.py:153 | The text is alphabet characters followed by the padding section 4 of RFC 4648 requires: none, `==` or `=` for a remainder of 0, 1 or 2 octets. |
| `Base64.DecodeEncode` | scripts/publish_game.py:153 | Decoding the encoding gives the octets back. |
| `Base64.EncodeDecode` | scripts/publish_game.py:153 | Every text the decoder accepts is the encoding of what it decodes to. Together with `DecodeEncode`, this pins `Encode` to the one canonical text per input, with zero pad bits. |
| `Payload.ShapeFile` | scripts/publish_game.py:142-155 | An entry keeps its file's path and has exactly one of `content` and `contentBase64`. |
| `Payload.ShapeFileSpec` | scripts/publish_game.py:142-155 | An entry has `content` exactly when text is preferred and the bytes are UTF-8, and that text re-encodes to the bytes. Otherwise `contentBase64` is the RFC 4648 encoding of the bytes. Either way the entry yields the file's bytes back. |
| `Payload.LoadFilesForPublish` | scripts/publish_game.py:133-156 | One entry per file, in the files' order. Each entry is shaped as above, keeps its file's path and yields its file's bytes. |
| `ExitStatus.ExitCode` | scripts/publish_game.py:159-183 | The returned code is 0 or 1. It is 0 whenever the reply's `success` is truthy; otherwise it is 1 exactly when the status is 400 or more. This holds when printing the reply at line 166 succeeds; see "Left out". |
| `ExitStatus.FalsyFlagsAgree` | scripts/publish_game.py:160 | A falsy `success` value (`null`, `false`, `0`, empty) gives the same exit code as an absent one. |

## Left out

- `_http_post` (lines 55-79) is network I/O, and the `x-request-id` header it adds is random.
- `_read_json_response` (lines 46-52) is a thin wrapper over the JSON parser. The reply reaches `ExitStatus` already decoded, as a map of JSON values.
- `_find_files` and `_to_posix_rel` (lines 123-130) walk the filesystem. `LoadFilesForPublish` takes their result as its input: a list of (relative POSIX path, bytes) pairs in the sorted order `_find_files` returns (line 125). The model keeps that order.
- `cmd_upload_zip` and `cmd_publish_files` (lines 186-253) are left out:
  - their existence, `is_file`, `.zip` suffix and `index.html` checks query the filesystem;
  - the assembly of their arguments into calls of the modelled functions is glue;
  - the `json.dumps` of the publish payload is the JSON library.
- `uuid.uuid4().hex` in the boundary is randomness. The boundary's random part is the parameter `token` of `Multipart.BuildForm`.
- `mimetypes.guess_type`, `build_parser` and `main` (lines 200, 256-307) are library and argparse plumbing.
- The stdout and stderr output of `_print_result` (lines 161-181) is left out. Only its return value is modelled.
- `ExitStatus.ExitCode` takes the reply as a JSON object. A reply that decodes to a list or a scalar makes `payload.get` raise in Python, and that case is not modelled. JSON numbers are exact reals, so the `NaN`, `Infinity` and `-Infinity` that `json.loads` accepts are not represented. All three are truthy in Python. Before returning, `_print_result` prints the whole reply with `ensure_ascii=False` (line 166). That print raises `UnicodeEncodeError` in two cases. One is a reply string with a lone surrogate, which `json.loads` keeps from an escape such as `"\ud800"`. The other is a stdout encoding that cannot hold the reply's text. `main` then reports the error and exits with 2, not with the code `ExitCode` gives. `Json.Str` holds Unicode scalar values only, and printing is not modelled, so this failure is not represented.
- `Headers.ParseItem`: the error keeps the item and the kind of failure, not the exact wording of the `ValueError` message with the item's `repr`.
- `Utf8.Decode`: reports only whether the bytes decode, not the position or reason of a `UnicodeDecodeError`.
- `Base64.Decode` is the model's partner of the encoder, used to state what an entry means. It is not Python's lenient `b64decode`, which the client never calls.
- `Multipart.BuildForm` takes its strings as Unicode scalar values. A Python `str` can also hold lone surrogates: a command-line argument or file name that is not valid UTF-8 arrives with them, such as the title or the zip file's name. `.encode("utf-8")` then raises `UnicodeEncodeError`, and `main` reports it and exits with 2. Dafny's `char` cannot hold a surrogate, so this failure is not modelled.
- `Headers.ParseHeaders` returns an unordered map, whereas Python's dict keeps insertion order, with a repeated key staying at its first position. Nothing in the client depends on that order.
- `Payload.EntryBytes` reads an entry back into bytes. It stands for the meaning of an entry; the server that reads the entries is not part of this model.
- `Text.Strip` uses the exact set of characters for which Python's `str.isspace` holds, with no Unicode normalization.
