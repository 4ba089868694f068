/** The `--header 'Key: Value'` option of both subcommands
    (`_parse_header_items`): a list of items becomes a header map, or the
    first malformed item is reported. */
module Headers {
  import opened Wrappers
  import opened Text

  datatype HeaderErrorKind =
    | MissingColon   // "expected 'Key: Value'"
    | EmptyKey       // "empty key"

  /** The `ValueError` raised for `item`. */
  datatype HeaderError = HeaderError(item: string, kind: HeaderErrorKind)

  /** The first colon of `item` is at `i`. */
  ghost predicate FirstColonAt(item: string, i: int) {
    0 <= i < |item| && item[i] == ':' && ':' !in item[..i]
  }

  /** One item: split on the first `:` only, strip key and value, reject an
      item without a colon or with a key that strips to nothing. */
  function ParseItem(item: string): (r: Result<(string, string), HeaderError>)
    ensures r.Err? ==> r.error.item == item
    ensures r.Err? && r.error.kind == MissingColon <==> ':' !in item
  {
    match SplitFirst(item, ':')
    case None => Err(HeaderError(item, MissingColon))
    case Some((k, v)) =>
      var key := Strip(k);
      if key == [] then Err(HeaderError(item, EmptyKey)) else Ok((key, Strip(v)))
  }

  /** Where the item has a colon, the key is the stripped text before the
      FIRST colon and the value the stripped rest, later colons included;
      the item is refused exactly when that key is empty. */
  lemma ParseItemSplits(item: string, i: int)
    requires FirstColonAt(item, i)
    ensures ParseItem(item).Ok? <==> Strip(item[..i]) != []
    ensures ParseItem(item).Ok? ==> ParseItem(item).value == (Strip(item[..i]), Strip(item[i + 1..]))
    ensures ParseItem(item).Err? ==> ParseItem(item).error.kind == EmptyKey
  {
    var (k, v) := SplitFirst(item, ':').value;
    assert item[..|k|] == k && item[|k| + 1..] == v;
    assert |k| == i;
  }

  /** A key never contains a colon, since the item is split at its first one. */
  lemma KeyHasNoColon(item: string)
    requires ParseItem(item).Ok?
    ensures ':' !in ParseItem(item).value.0
  {
    var (k, _) := SplitFirst(item, ':').value;
    StripSubsequence(k);
  }

  /** What parsing one item gives. */
  type Parsed = Result<(string, string), HeaderError>

  /** The loop of `_parse_header_items` over already parsed items, left to
      right: each good item sets its key, so a later item overrides an earlier
      one with the same key; the first bad item aborts. */
  function Collect(parsed: seq<Parsed>): (r: Result<map<string, string>, HeaderError>)
    decreases |parsed|
  {
    if |parsed| == 0 then Ok(map[])
    else
      match Collect(parsed[..|parsed| - 1])
      case Err(e) => Err(e)
      case Ok(m) =>
        match parsed[|parsed| - 1]
        case Err(e) => Err(e)
        case Ok((k, v)) => Ok(m[k := v])
  }

  /** `_parse_header_items(items)`. */
  function ParseHeaders(items: seq<string>): Result<map<string, string>, HeaderError> {
    Collect(ParseAll(items))
  }

  function ParseAll(items: seq<string>): (r: seq<Parsed>)
    ensures |r| == |items| && forall i :: 0 <= i < |items| ==> r[i] == ParseItem(items[i])
  {
    seq(|items|, i requires 0 <= i < |items| => ParseItem(items[i]))
  }

  /** The list is collected exactly when every item parsed. */
  lemma {:induction false} CollectOkIff(parsed: seq<Parsed>)
    ensures Collect(parsed).Ok? <==> forall i :: 0 <= i < |parsed| ==> parsed[i].Ok?
    decreases |parsed|
  {
    if |parsed| > 0 {
      var init := parsed[..|parsed| - 1];
      CollectOkIff(init);
      assert forall i :: 0 <= i < |init| ==> init[i] == parsed[i];
    }
  }

  /** Item `i` is the first one that did not parse. */
  ghost predicate FirstBadAt(parsed: seq<Parsed>, i: int) {
    && 0 <= i < |parsed|
    && parsed[i].Err?
    && forall j :: 0 <= j < i ==> parsed[j].Ok?
  }

  /** A failure reports the first bad item, with that item's own error. */
  lemma {:induction false} CollectFirstError(parsed: seq<Parsed>)
    requires Collect(parsed).Err?
    ensures exists i :: FirstBadAt(parsed, i) && Collect(parsed).error == parsed[i].error
    decreases |parsed|
  {
    var n := |parsed|;
    var init := parsed[..n - 1];
    assert forall i :: 0 <= i < |init| ==> init[i] == parsed[i];
    if Collect(init).Err? {
      CollectFirstError(init);
      var i :| FirstBadAt(init, i) && Collect(init).error == init[i].error;
      assert FirstBadAt(parsed, i);
    } else {
      CollectOkIff(init);
      assert FirstBadAt(parsed, n - 1);
    }
  }

  /** On success the map's keys are exactly the items' keys (none for an
      empty list). */
  lemma {:induction false} CollectKeys(parsed: seq<Parsed>)
    requires Collect(parsed).Ok?
    ensures Collect(parsed).value.Keys == set i | 0 <= i < |parsed| && parsed[i].Ok? :: parsed[i].value.0
    decreases |parsed|
  {
    if |parsed| > 0 {
      var n := |parsed|;
      var init := parsed[..n - 1];
      CollectKeys(init);
      assert forall i :: 0 <= i < |init| ==> init[i] == parsed[i];
      var ks := set i | 0 <= i < |parsed| && parsed[i].Ok? :: parsed[i].value.0;
      var ks' := set i | 0 <= i < |init| && init[i].Ok? :: init[i].value.0;
      assert ks == ks' + {parsed[n - 1].value.0};
    }
  }

  /** On success each key maps to the value of its LAST occurrence. */
  lemma {:induction false} CollectLastWins(parsed: seq<Parsed>, i: int)
    requires Collect(parsed).Ok?
    requires 0 <= i < |parsed| && parsed[i].Ok?
    requires forall j :: i < j < |parsed| && parsed[j].Ok? ==> parsed[j].value.0 != parsed[i].value.0
    ensures parsed[i].value.0 in Collect(parsed).value
    ensures Collect(parsed).value[parsed[i].value.0] == parsed[i].value.1
    decreases |parsed|
  {
    var n := |parsed|;
    var init := parsed[..n - 1];
    CollectOkIff(parsed);
    if i < n - 1 {
      assert forall j :: 0 <= j < |init| ==> init[j] == parsed[j];
      CollectLastWins(init, i);
    }
  }

  /** `_parse_header_items` succeeds exactly when every item has a colon and
      a non-empty stripped key; otherwise it reports the first item that
      does not. */
  lemma ParseHeadersResult(items: seq<string>)
    ensures ParseHeaders(items).Ok? <==> forall i :: 0 <= i < |items| ==> ParseItem(items[i]).Ok?
    ensures ParseHeaders(items).Err? ==>
      exists i :: (&& 0 <= i < |items|
                   && ParseItem(items[i]).Err?
                   && (forall j :: 0 <= j < i ==> ParseItem(items[j]).Ok?)
                   && ParseHeaders(items).error == ParseItem(items[i]).error)
  {
    var parsed := ParseAll(items);
    CollectOkIff(parsed);
    if Collect(parsed).Err? {
      CollectFirstError(parsed);
      var i :| FirstBadAt(parsed, i) && Collect(parsed).error == parsed[i].error;
      assert ParseItem(items[i]).Err?;
    }
  }

  /** On success the header map holds exactly the items' stripped keys, each
      with the stripped value of its last occurrence. */
  lemma ParseHeadersMap(items: seq<string>)
    requires ParseHeaders(items).Ok?
    ensures ParseHeaders(items).value.Keys == set i | 0 <= i < |items| && ParseItem(items[i]).Ok? :: ParseItem(items[i]).value.0
    ensures forall i :: 0 <= i < |items| && LastOccurrence(items, i) ==>
      ParseItem(items[i]).Ok? && ParseHeaders(items).value[ParseItem(items[i]).value.0] == ParseItem(items[i]).value.1
  {
    var parsed := ParseAll(items);
    CollectKeys(parsed);
    CollectOkIff(parsed);
    forall i | 0 <= i < |items| && LastOccurrence(items, i)
      ensures ParseHeaders(items).value[ParseItem(items[i]).value.0] == ParseItem(items[i]).value.1
    {
      CollectLastWins(parsed, i);
    }
  }

  /** No later item of the list sets the key item `i` sets. */
  ghost predicate LastOccurrence(items: seq<string>, i: int)
    requires 0 <= i < |items|
  {
    forall j :: i < j < |items| && ParseItem(items[j]).Ok? && ParseItem(items[i]).Ok? ==>
      ParseItem(items[j]).value.0 != ParseItem(items[i]).value.0
  }
}
