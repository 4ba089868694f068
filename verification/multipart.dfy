/** The `multipart/form-data` request body of the `upload-zip` subcommand
    (`_build_multipart_form`): form fields and one file part, each introduced
    by a delimiter line, closed by the close-delimiter, in the syntax of
    section 5.1.1 of RFC 2046 as RFC 7578 uses it. */
module Multipart {
  import opened Bytes
  import opened Utf8

  const CR: byte := 13
  const LF: byte := 10
  const CRLF: seq<byte> := [CR, LF]

  /** The fixed part of every boundary; the source appends a random UUID in
      hex, which the model takes as the parameter `token`. */
  const BoundaryPrefix: string := "----GamePublishBoundary"

  function Boundary(token: string): string {
    BoundaryPrefix + token
  }

  /** A text form field, e.g. `("title", "My Game")`. */
  datatype Field = Field(name: string, value: string)

  /** The file part: form field name, file name, media type and raw bytes. */
  datatype FilePart = FilePart(field: string, fileName: string, contentType: string, bytes: seq<byte>)

  /** The body and the value of the request's `Content-Type` header. */
  datatype Form = Form(body: seq<byte>, contentType: string)

  /** The delimiter line `--boundary`. */
  function Delimiter(boundary: string): seq<byte> {
    Encode("--" + boundary)
  }

  /** The close-delimiter line `--boundary--`. */
  function CloseDelimiter(boundary: string): seq<byte> {
    Encode("--" + boundary + "--")
  }

  function FieldDisposition(name: string): string {
    "Content-Disposition: form-data; name=\"" + name + "\""
  }

  function FileDisposition(field: string, fileName: string): string {
    "Content-Disposition: form-data; name=\"" + field + "\"; filename=\"" + fileName + "\""
  }

  /** `sep.join(chunks)`: the chunks with one separator between neighbours. */
  function Join<T>(chunks: seq<seq<T>>, sep: seq<T>): seq<T>
    decreases |chunks|
  {
    if |chunks| == 0 then []
    else if |chunks| == 1 then chunks[0]
    else chunks[0] + sep + Join(chunks[1..], sep)
  }

  /** The four chunks per field that the source collects, in field order. */
  function FieldChunks(boundary: string, fields: seq<Field>): seq<seq<byte>>
    decreases |fields|
  {
    if |fields| == 0 then []
    else
      [Delimiter(boundary), Encode(FieldDisposition(fields[0].name)), [], Encode(fields[0].value)]
      + FieldChunks(boundary, fields[1..])
  }

  /** The file part's five chunks, then the close-delimiter and an empty
      chunk (which makes the body end in CRLF). */
  function TailChunks(boundary: string, file: FilePart): seq<seq<byte>> {
    [ Delimiter(boundary),
      Encode(FileDisposition(file.field, file.fileName)),
      Encode("Content-Type: " + file.contentType),
      [],
      file.bytes,
      CloseDelimiter(boundary),
      [] ]
  }

  /** `_build_multipart_form(fields, file_field, file_name, file_bytes,
      file_content_type)` with the random part of the boundary given as
      `token`: the chunks joined with CRLF. Its layout is `Layout`. */
  function BuildForm(fields: seq<Field>, file: FilePart, token: string): (r: Form)
    ensures r.body == Layout(Boundary(token), fields, file)
    ensures r.contentType == "multipart/form-data; boundary=" + Boundary(token)
  {
    var boundary := Boundary(token);
    BodyLayout(boundary, fields, file);
    Form(Join(FieldChunks(boundary, fields) + TailChunks(boundary, file), CRLF),
         "multipart/form-data; boundary=" + boundary)
  }

  // The same body, described part by part as RFC 2046 lays it out.

  /** One field as a body part: delimiter line, header line, empty line, the
      value, and the CRLF that belongs to the next delimiter. */
  function FieldPart(boundary: string, f: Field): seq<byte> {
    Delimiter(boundary) + CRLF + Encode(FieldDisposition(f.name)) + CRLF + CRLF + Encode(f.value) + CRLF
  }

  /** The field parts in input order. */
  function FieldParts(boundary: string, fields: seq<Field>): seq<byte>
    decreases |fields|
  {
    if |fields| == 0 then [] else FieldPart(boundary, fields[0]) + FieldParts(boundary, fields[1..])
  }

  /** The file part: delimiter line, two header lines, empty line, the bytes
      as they are, and the CRLF before the close-delimiter. */
  function FileBodyPart(boundary: string, file: FilePart): seq<byte> {
    Delimiter(boundary) + CRLF
    + Encode(FileDisposition(file.field, file.fileName)) + CRLF
    + Encode("Content-Type: " + file.contentType) + CRLF
    + CRLF
    + file.bytes + CRLF
  }

  /** Field parts, file part, close-delimiter line. */
  function Layout(boundary: string, fields: seq<Field>, file: FilePart): seq<byte> {
    FieldParts(boundary, fields) + FileBodyPart(boundary, file) + CloseDelimiter(boundary) + CRLF
  }

  /** Joining a chunk in front of a non-empty list puts one separator after it. */
  lemma JoinCons<T>(x: seq<T>, rest: seq<seq<T>>, sep: seq<T>)
    requires |rest| > 0
    ensures Join([x] + rest, sep) == x + sep + Join(rest, sep)
  {
    assert ([x] + rest)[1..] == rest;
  }

  lemma Associative<T>(a: seq<T>, b: seq<T>, c: seq<T>)
    ensures a + (b + c) == a + b + c
  {
  }

  /** Two chunks in front of a non-empty list. */
  lemma JoinTwo<T>(a: seq<T>, b: seq<T>, rest: seq<seq<T>>, sep: seq<T>)
    requires |rest| > 0
    ensures Join([a, b] + rest, sep) == a + sep + b + sep + Join(rest, sep)
  {
    var j := Join(rest, sep);
    assert [a, b] + rest == [a] + ([b] + rest);
    JoinCons(b, rest, sep);
    JoinCons(a, [b] + rest, sep);
    Associative(a + sep, b + sep, j);
    Associative(a + sep, b, sep);
  }

  lemma Flatten<T>(x: seq<T>, c: seq<T>, s: seq<T>, d: seq<T>)
    ensures x + (c + s + d + s) == x + c + s + d + s
  {
    Associative(x, c + s + d, s);
    Associative(x, c + s, d);
    Associative(x, c, s);
  }

  /** Four chunks in front of a non-empty list. */
  lemma JoinFour<T>(a: seq<T>, b: seq<T>, c: seq<T>, d: seq<T>, rest: seq<seq<T>>, sep: seq<T>)
    requires |rest| > 0
    ensures Join([a, b, c, d] + rest, sep) == (a + sep + b + sep + c + sep + d + sep) + Join(rest, sep)
  {
    var x, y, j := a + sep + b + sep, c + sep + d + sep, Join(rest, sep);
    assert [a, b, c, d] + rest == [a, b] + ([c, d] + rest);
    JoinTwo(c, d, rest, sep);
    JoinTwo(a, b, [c, d] + rest, sep);
    Associative(x, y, j);
    Flatten(x, c, sep, d);
  }

  /** One field's step of the induction below, for any chunk contents. */
  lemma JoinFieldStep<T>(d: seq<T>, h: seq<T>, v: seq<T>, more: seq<seq<T>>, tail: seq<seq<T>>,
                         sep: seq<T>, moreParts: seq<T>)
    requires |tail| > 0
    requires Join(more + tail, sep) == moreParts + Join(tail, sep)
    ensures Join([d, h, [], v] + more + tail, sep)
      == (d + sep + h + sep + sep + v + sep) + moreParts + Join(tail, sep)
  {
    Associative([d, h, [], v], more, tail);
    JoinFour(d, h, [], v, more + tail, sep);
    assert d + sep + h + sep + [] == d + sep + h + sep;
    Associative(d + sep + h + sep + sep + v + sep, moreParts, Join(tail, sep));
  }

  /** Each field's four chunks joined with CRLF are that field's part. */
  lemma {:induction false} JoinFieldChunks(boundary: string, fields: seq<Field>, tail: seq<seq<byte>>)
    requires |tail| > 0
    ensures Join(FieldChunks(boundary, fields) + tail, CRLF) == FieldParts(boundary, fields) + Join(tail, CRLF)
    decreases |fields|
  {
    if |fields| == 0 {
      assert FieldChunks(boundary, fields) + tail == tail;
      assert FieldParts(boundary, fields) + Join(tail, CRLF) == Join(tail, CRLF);
    } else {
      var f := fields[0];
      JoinFieldChunks(boundary, fields[1..], tail);
      JoinFieldStep(Delimiter(boundary), Encode(FieldDisposition(f.name)), Encode(f.value),
                    FieldChunks(boundary, fields[1..]), tail, CRLF, FieldParts(boundary, fields[1..]));
    }
  }

  /** Seven chunks of the file part's shape, the fourth and the last empty. */
  lemma JoinSeven<T>(d: seq<T>, h1: seq<T>, h2: seq<T>, bytes: seq<T>, close: seq<T>, sep: seq<T>)
    ensures Join([d, h1, h2, [], bytes, close, []], sep)
      == d + sep + h1 + sep + h2 + sep + sep + bytes + sep + close + sep
  {
    var c := [d, h1, h2, [], bytes, close, []];
    assert c == [d, h1, h2, []] + [bytes, close, []];
    JoinFour(d, h1, h2, [], [bytes, close, []], sep);
    JoinCons(bytes, [close, []], sep);
    JoinCons(close, [[]], sep);
    var x := d + sep + h1 + sep + h2 + sep + [] + sep;
    assert x == d + sep + h1 + sep + h2 + sep + sep;
    Associative(bytes + sep, close + sep, []);
    Associative(x, bytes + sep, close + sep);
    Associative(x, bytes, sep);
    Associative(x + bytes + sep, close, sep);
  }

  /** The file and closing chunks joined with CRLF. */
  lemma JoinTailChunks(boundary: string, file: FilePart)
    ensures Join(TailChunks(boundary, file), CRLF) == FileBodyPart(boundary, file) + CloseDelimiter(boundary) + CRLF
  {
    JoinSeven(Delimiter(boundary), Encode(FileDisposition(file.field, file.fileName)),
              Encode("Content-Type: " + file.contentType), file.bytes, CloseDelimiter(boundary), CRLF);
  }

  /** The joined chunks are exactly the part-by-part layout. */
  lemma BodyLayout(boundary: string, fields: seq<Field>, file: FilePart)
    ensures Join(FieldChunks(boundary, fields) + TailChunks(boundary, file), CRLF) == Layout(boundary, fields, file)
  {
    var fp, fbp, cd := FieldParts(boundary, fields), FileBodyPart(boundary, file), CloseDelimiter(boundary);
    JoinFieldChunks(boundary, fields, TailChunks(boundary, file));
    JoinTailChunks(boundary, file);
    Associative(fp, fbp + cd, CRLF);
    Associative(fp, fbp, cd);
  }

  lemma PrefixOfConcat<T>(a: seq<T>, b: seq<T>)
    ensures (a + b)[..|a|] == a && (a + b)[|a|..] == b
  {
  }

  /** A join starts with its first chunk. */
  lemma JoinStartsWithFirst<T>(chunks: seq<seq<T>>, sep: seq<T>)
    requires |chunks| > 0
    ensures |chunks[0]| <= |Join(chunks, sep)| && Join(chunks, sep)[..|chunks[0]|] == chunks[0]
  {
    if |chunks| > 1 {
      Associative(chunks[0], sep, Join(chunks[1..], sep));
      PrefixOfConcat(chunks[0], sep + Join(chunks[1..], sep));
    }
  }

  /** The body opens with the first delimiter line `--boundary`, whether
      that line introduces a field or the file. */
  lemma FormStartsWithDelimiter(fields: seq<Field>, file: FilePart, token: string)
    ensures var body := BuildForm(fields, file, token).body;
      var d := Delimiter(Boundary(token));
      |d| <= |body| && body[..|d|] == d
  {
    var boundary := Boundary(token);
    var chunks := FieldChunks(boundary, fields) + TailChunks(boundary, file);
    assert chunks[0] == Delimiter(boundary);
    JoinStartsWithFirst(chunks, CRLF);
  }

  /** Regrouping a part that ends in `t` so that `t` and what follows it
      form a suffix. */
  lemma SuffixAfterHead<T>(fp: seq<T>, h: seq<T>, t: seq<T>, cd: seq<T>, sep: seq<T>)
    ensures var all := fp + (h + t) + cd + sep;
      |fp + h| <= |all| && all[|fp + h|..] == t + cd + sep
  {
    Associative(fp, h, t);
    Associative(fp + h, t + cd, sep);
    Associative(fp + h, t, cd);
    PrefixOfConcat(fp + h, t + cd + sep);
  }

  /** The file part is its head (delimiter and header lines) followed by the
      empty line, the bytes and a CRLF. */
  lemma FilePartSplit<T>(d: seq<T>, h1: seq<T>, h2: seq<T>, bytes: seq<T>, sep: seq<T>)
    ensures d + sep + h1 + sep + h2 + sep + sep + bytes + sep
      == (d + sep + h1 + sep + h2) + (sep + sep + bytes + sep)
  {
    var h := d + sep + h1 + sep + h2;
    Associative(h, sep + sep + bytes, sep);
    Associative(h, sep + sep, bytes);
    Associative(h, sep, sep);
  }

  /** The body closes with the empty line that ends the file part's headers,
      the file's bytes unaltered, the close-delimiter `--boundary--` and a
      final CRLF. */
  lemma FormEndsWithFile(fields: seq<Field>, file: FilePart, token: string)
    ensures var body := BuildForm(fields, file, token).body;
      var close := CRLF + CRLF + file.bytes + CRLF + CloseDelimiter(Boundary(token)) + CRLF;
      |close| <= |body| && body[|body| - |close|..] == close
  {
    var boundary := Boundary(token);
    var d, h1, h2 := Delimiter(boundary), Encode(FileDisposition(file.field, file.fileName)),
                     Encode("Content-Type: " + file.contentType);
    FilePartSplit(d, h1, h2, file.bytes, CRLF);
    SuffixAfterHead(FieldParts(boundary, fields), d + CRLF + h1 + CRLF + h2,
                    CRLF + CRLF + file.bytes + CRLF, CloseDelimiter(boundary), CRLF);
  }
}
