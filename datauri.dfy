/** Inline buffers: `parse_data_uri` (importer.rs:56-60) takes the second
    comma-separated field of a `data:` URI and base64-decodes it. */
module DataUri {
  import opened Outcome
  import Base64

  /** `str::split(sep)`: the fields between separators, in order; a text
      with `n` separators has `n + 1` fields, some possibly empty. */
  function Split(s: string, sep: char): (fields: seq<string>)
    ensures |fields| > 0
    ensures forall i :: 0 <= i < |fields| ==> sep !in fields[i]
  {
    if |s| == 0 then [[]]
    else
      var rest := Split(s[1..], sep);
      if s[0] == sep then [[]] + rest
      else [[s[0]] + rest[0]] + rest[1..]
  }

  /** The fields glued back together with the separator between them. */
  function JoinFields(fields: seq<string>, sep: char): string
    requires |fields| > 0
  {
    if |fields| == 1 then fields[0]
    else fields[0] + [sep] + JoinFields(fields[1..], sep)
  }

  /** Splitting loses nothing: joining the fields gives the text back. */
  lemma {:induction false} JoinSplit(s: string, sep: char)
    ensures JoinFields(Split(s, sep), sep) == s
  {
    if |s| > 0 {
      var rest := Split(s[1..], sep);
      JoinSplit(s[1..], sep);
      if s[0] == sep {
        assert Split(s, sep)[1..] == rest;
        assert s == [sep] + s[1..];
      } else {
        var fields := Split(s, sep);
        assert fields[1..] == rest[1..];
        if |rest| == 1 {
          assert s == [s[0]] + s[1..];
        } else {
          assert JoinFields(rest, sep) == rest[0] + [sep] + JoinFields(rest[1..], sep);
          assert s == [s[0]] + s[1..];
        }
      }
    }
  }

  /** A text splits into more than one field exactly when it holds the separator. */
  lemma SplitHasSeveralFields(s: string, sep: char)
    ensures |Split(s, sep)| > 1 <==> sep in s
  {
    var fields := Split(s, sep);
    JoinSplit(s, sep);
    if |fields| > 1 {
      assert JoinFields(fields, sep)[|fields[0]|] == sep;
    }
  }

  /** A character other than the separator joins the first field. */
  lemma SplitCons(c: char, s: string, sep: char)
    requires c != sep
    ensures Split([c] + s, sep) == [[c] + Split(s, sep)[0]] + Split(s, sep)[1..]
  {
    assert ([c] + s)[1..] == s;
  }

  /** A text without separators in front of a separated text joins its first field. */
  lemma {:induction false} SplitPrefix(p: string, t: string, sep: char)
    requires sep !in p
    ensures Split(p + t, sep) == [p + Split(t, sep)[0]] + Split(t, sep)[1..]
  {
    if |p| > 0 {
      var fields, q := Split(t, sep), p[1..];
      assert p[0] != sep;
      assert p + t == [p[0]] + (q + t);
      SplitCons(p[0], q + t, sep);
      SplitPrefix(q, t, sep);
      assert [p[0]] + (q + fields[0]) == p + fields[0];
    } else {
      var fields := Split(t, sep);
      assert p + t == t && p + fields[0] == fields[0];
      assert fields == [fields[0]] + fields[1..];
    }
  }

  /** `split(',').nth(1)`: the field after the first comma, up to the next one. */
  function SecondField(uri: string): (r: Option<string>)
    ensures r.Some? <==> ',' in uri
  {
    SplitHasSeveralFields(uri, ',');
    var fields := Split(uri, ',');
    if |fields| > 1 then Some(fields[1]) else None
  }

  /** The field `nth(1)` returns is the text between the first comma and
      the next comma or the end. */
  lemma SecondFieldBetweenCommas(head: string, payload: string, tail: string)
    requires ',' !in head && ',' !in payload
    requires tail == [] || tail[0] == ','
    ensures SecondField(head + [','] + payload + tail) == Some(payload)
  {
    var uri := head + [','] + payload + tail;
    var afterComma := [','] + (payload + tail);
    assert uri == head + afterComma;
    SplitPrefix(head, afterComma, ',');
    assert afterComma[1..] == payload + tail;
    assert Split(afterComma, ',') == [[]] + Split(payload + tail, ',');
    SplitPrefix(payload, tail, ',');
    assert Split(tail, ',')[0] == [] by {
      if tail != [] {
        assert Split(tail, ',') == [[]] + Split(tail[1..], ',');
      }
    }
    assert Split(payload + tail, ',')[0] == payload;
  }

  /** `parse_data_uri`: panics when the URI holds no comma, fails when the
      payload is not base64, and otherwise yields the decoded bytes. */
  function ParseDataUri(uri: string): (r: Outcome<seq<byte>>)
    ensures r.Panic? ==> r.reason == UriWithoutComma
    ensures r.Err? ==> r.error == InvalidBase64
  {
    match SecondField(uri)
    case None => Panic(UriWithoutComma)
    case Some(encoded) =>
      match Base64.Decode(encoded)
      case None => Err(InvalidBase64)
      case Some(bytes) => Ok(bytes)
  }

  /** The only panic is a URI without a comma, and such a URI always panics. */
  lemma ParseDataUriPanics(uri: string)
    ensures ParseDataUri(uri).Panic? <==> ',' !in uri
    ensures ParseDataUri(uri).Panic? ==> ParseDataUri(uri).reason == UriWithoutComma
  {
    SplitHasSeveralFields(uri, ',');
  }

  /** With a comma present, the outcome is exactly the strict decoding of the
      second field: its bytes when it is a base64 text, `InvalidBase64` otherwise. */
  lemma ParseDataUriDecodes(head: string, payload: string, tail: string)
    requires ',' !in head && ',' !in payload
    requires tail == [] || tail[0] == ','
    ensures ParseDataUri(head + [','] + payload + tail) ==
      (if Base64.Decode(payload).Some? then Ok(Base64.Decode(payload).value) else Err(InvalidBase64))
  {
    SecondFieldBetweenCommas(head, payload, tail);
  }

  /** Any bytes, base64-encoded after a comma-free header and one comma,
      parse back to themselves. */
  lemma ParseEncoded(head: string, x: seq<byte>)
    requires ',' !in head
    ensures ParseDataUri(head + [','] + Base64.Encode(x)) == Ok(x)
  {
    Base64.EncodeHasNoComma(x);
    Base64.DecodeEncode(x);
    SecondFieldBetweenCommas(head, Base64.Encode(x), []);
    assert head + [','] + Base64.Encode(x) + [] == head + [','] + Base64.Encode(x);
  }

  /** The header of the data URIs glTF exporters write for binary buffers. */
  const OctetStreamHeader: string := "data:application/octet-stream;base64"

  /** Encoding any bytes as a data URI and parsing it gives them back,
      including the empty byte sequence. */
  lemma DataUriRoundTrip(x: seq<byte>)
    ensures ParseDataUri(OctetStreamHeader + "," + Base64.Encode(x)) == Ok(x)
  {
    ParseEncoded(OctetStreamHeader, x);
  }
}
