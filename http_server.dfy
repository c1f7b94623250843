/** The query-string reader of the redirect-callback listener: from the path
    of a GET request it builds the mapping from parameter name to value that
    the listener hands to its callback. */
module HttpServer {
  import opened Strings
  import opened Percent

  datatype Option<T> = None | Some(value: T)

  /** A `name=value` segment of the query, the value still encoded. */
  datatype Param = Param(key: string, rawValue: string)

  /** A segment is a parameter exactly when splitting it on `=` gives two
      parts; any other segment is dropped without an error. */
  function ParseSegment(segment: string): (p: Option<Param>)
    ensures p.Some? <==> Count(segment, '=') == 1
    ensures p.Some? ==> '=' !in p.value.key && '=' !in p.value.rawValue
    ensures p.Some? ==> segment == p.value.key + "=" + p.value.rawValue
  {
    var parts := Split(segment, '=');
    JoinSplit(segment, '=');
    assert |parts| == 2 ==> Join(parts, '=') == parts[0] + "=" + parts[1];
    if |parts| == 2 then Some(Param(parts[0], parts[1])) else None
  }

  /** The segment adds an entry under `key`. */
  predicate HasKey(segment: string, key: string)
  {
    ParseSegment(segment).Some? && ParseSegment(segment).value.key == key
  }

  /** `params_received` after the loop has seen `segments`, in order: each
      parameter segment stores its key with its decoded value, overwriting
      what an earlier segment stored under the same key. */
  function ParamsReceived(segments: seq<string>): map<string, string>
  {
    if segments == [] then map[]
    else
      var received := ParamsReceived(segments[..|segments| - 1]);
      match ParseSegment(segments[|segments| - 1])
      case None => received
      case Some(p) => received[p.key := Unquote(p.rawValue)]
  }

  /** The `&`-separated segments of the text after the first `?`, or none
      when there is no `?` (`Find` gives -1) or nothing follows it; a
      non-empty query has at least one segment, possibly empty. */
  function QuerySegments(path: string): (segments: seq<string>)
    ensures segments == [] <==> Find(path, '?') == -1 || Find(path, '?') == |path| - 1
    ensures forall i :: 0 <= i < |segments| ==> '&' !in segments[i]
  {
    var idx := Find(path, '?');
    if idx >= 0 && idx < |path| - 1 then Split(path[idx + 1..], '&') else []
  }

  /** Joined back with `&`, the segments are exactly the text after the
      first `?`: no text of the query is lost or added. */
  lemma QuerySegmentsJoin(path: string)
    requires QuerySegments(path) != []
    ensures Join(QuerySegments(path), '&') == path[Find(path, '?') + 1..]
  {
    JoinSplit(path[Find(path, '?') + 1..], '&');
  }

  /** What `read_request_parameters(path)` returns. */
  function RequestParameters(path: string): map<string, string>
  {
    ParamsReceived(QuerySegments(path))
  }

  /** `read_request_parameters`: one pass over the segments, storing each
      parameter in a dictionary that starts empty. */
  method ReadRequestParameters(path: string) returns (params: map<string, string>)
    ensures params == RequestParameters(path)
  {
    params := map[];
    var idx := Find(path, '?');
    if idx >= 0 && idx < |path| - 1 {
      var segments := Split(path[idx + 1..], '&');
      var i := 0;
      while i < |segments|
        invariant 0 <= i <= |segments|
        invariant params == ParamsReceived(segments[..i])
      {
        var parts := Split(segments[i], '=');
        if |parts| == 2 {
          params := params[parts[0] := Unquote(parts[1])];
        }
        assert segments[..i + 1][..i] == segments[..i];
        i := i + 1;
      }
      assert segments[..|segments|] == segments;
    }
  }

  // Where the query starts and ends

  /** Without a `?` there are no parameters. */
  lemma NoQueryNoParameters(path: string)
    requires '?' !in path
    ensures RequestParameters(path) == map[]
  {
  }

  /** A path whose first `?` is its last character has no parameters. */
  lemma EmptyQueryNoParameters(path: string)
    requires |path| >= 1 && path[|path| - 1] == '?' && '?' !in path[..|path| - 1]
    ensures RequestParameters(path) == map[]
  {
  }

  /** Only the first `?` delimits the query; a later `?` is ordinary text of
      a key or value. */
  lemma FirstQuestionMarkStartsQuery(prefix: string, query: string)
    requires '?' !in prefix
    ensures RequestParameters(prefix + "?" + query)
         == if query == [] then map[] else ParamsReceived(Split(query, '&'))
  {
    var path := prefix + "?" + query;
    assert path[|prefix|] == '?';
    assert path[..|prefix|] == prefix;
    var idx := Find(path, '?');
    assert idx == |prefix|;
    assert path[idx + 1..] == query;
  }

  // What the parameters are, for any list of segments

  /** A key is present exactly when some segment carries it. */
  lemma {:induction false} KeysComeFromSegments(segments: seq<string>, key: string)
    ensures key in ParamsReceived(segments)
        <==> exists i :: 0 <= i < |segments| && HasKey(segments[i], key)
  {
    if segments != [] {
      var n := |segments| - 1;
      var init := segments[..n];
      KeysComeFromSegments(init, key);
      if key in ParamsReceived(segments) && !HasKey(segments[n], key) {
        var i :| 0 <= i < |init| && HasKey(init[i], key);
        assert segments[i] == init[i];
      }
      if i :| 0 <= i < |segments| && HasKey(segments[i], key) {
        if i < n {
          assert init[i] == segments[i];
        }
      }
    }
  }

  /** The value stored under a key is the decoded value of the last segment
      carrying that key; the key itself is stored as written. */
  lemma {:induction false} LastSegmentWins(segments: seq<string>, i: nat)
    requires i < |segments| && ParseSegment(segments[i]).Some?
    requires forall j :: i < j < |segments| ==> !HasKey(segments[j], ParseSegment(segments[i]).value.key)
    ensures ParseSegment(segments[i]).value.key in ParamsReceived(segments)
    ensures ParamsReceived(segments)[ParseSegment(segments[i]).value.key]
         == Unquote(ParseSegment(segments[i]).value.rawValue)
  {
    var n := |segments| - 1;
    if i < n {
      var init := segments[..n];
      assert init[i] == segments[i];
      forall j | i < j < |init|
        ensures !HasKey(init[j], ParseSegment(init[i]).value.key)
      {
        assert init[j] == segments[j];
      }
      LastSegmentWins(init, i);
      assert !HasKey(segments[n], ParseSegment(segments[i]).value.key);
    }
  }

  /** The result is empty exactly when no segment is a parameter. */
  lemma EmptyWhenNoParameterSegment(segments: seq<string>)
    ensures ParamsReceived(segments) == map[]
        <==> forall i :: 0 <= i < |segments| ==> Count(segments[i], '=') != 1
  {
    if ParamsReceived(segments) != map[] {
      var key :| key in ParamsReceived(segments);
      KeysComeFromSegments(segments, key);
    }
    if i :| 0 <= i < |segments| && Count(segments[i], '=') == 1 {
      KeysComeFromSegments(segments, ParseSegment(segments[i]).value.key);
    }
  }

  /** A segment that is not a parameter leaves the result unchanged. */
  lemma DroppedSegment(segments: seq<string>, segment: string)
    requires Count(segment, '=') != 1
    ensures ParamsReceived(segments + [segment]) == ParamsReceived(segments)
  {
    assert (segments + [segment])[..|segments|] == segments;
  }

  // Round trips: a query written from a list of fields reads back as those fields

  /** A field can be written as a segment: neither its name nor its value
      holds a delimiter. */
  predicate IsWritable(field: (string, string))
  {
    '&' !in field.0 && '=' !in field.0 && '&' !in field.1 && '=' !in field.1
  }

  /** The segment `name=value`. */
  function FieldSegment(field: (string, string)): string
  {
    field.0 + "=" + field.1
  }

  function FieldSegments(fields: seq<(string, string)>): seq<string>
  {
    seq(|fields|, i requires 0 <= i < |fields| => FieldSegment(fields[i]))
  }

  /** The query `n1=v1&n2=v2&...` for `fields`. */
  function ToQuery(fields: seq<(string, string)>): string
  {
    Join(FieldSegments(fields), '&')
  }

  /** The dictionary with the fields stored in order, a later field
      overwriting an earlier one with the same name. */
  function ToMap(fields: seq<(string, string)>): map<string, string>
  {
    if fields == [] then map[]
    else ToMap(fields[..|fields| - 1])[fields[|fields| - 1].0 := fields[|fields| - 1].1]
  }

  predicate HasDistinctNames(fields: seq<(string, string)>)
  {
    forall i, j :: 0 <= i < j < |fields| ==> fields[i].0 != fields[j].0
  }

  /** A name is in the dictionary exactly when some field has it. */
  lemma {:induction false} ToMapNames(fields: seq<(string, string)>, name: string)
    ensures name in ToMap(fields) <==> exists i :: 0 <= i < |fields| && fields[i].0 == name
  {
    if fields != [] {
      var n := |fields| - 1;
      var init := fields[..n];
      ToMapNames(init, name);
      if name in ToMap(fields) && fields[n].0 != name {
        var i :| 0 <= i < |init| && init[i].0 == name;
        assert fields[i] == init[i];
      }
      if i :| 0 <= i < |fields| && fields[i].0 == name {
        if i < n {
          assert init[i] == fields[i];
        }
      }
    }
  }

  /** With distinct names, every field's value is stored under its name. */
  lemma {:induction false} ToMapValues(fields: seq<(string, string)>)
    requires HasDistinctNames(fields)
    ensures forall i :: 0 <= i < |fields| ==> fields[i].0 in ToMap(fields) && ToMap(fields)[fields[i].0] == fields[i].1
  {
    if fields != [] {
      var n := |fields| - 1;
      var init := fields[..n];
      assert HasDistinctNames(init) by {
        forall i, j | 0 <= i < j < |init| ensures init[i].0 != init[j].0 {
          assert init[i] == fields[i] && init[j] == fields[j];
        }
      }
      ToMapValues(init);
      forall i | 0 <= i < n
        ensures fields[i].0 in ToMap(fields) && ToMap(fields)[fields[i].0] == fields[i].1
      {
        assert init[i] == fields[i];
      }
    }
  }

  /** A written field reads back as the parameter it came from. */
  lemma ParseFieldSegment(field: (string, string))
    requires '=' !in field.0 && '=' !in field.1
    ensures ParseSegment(FieldSegment(field)) == Some(Param(field.0, field.1))
  {
    SplitAtSeparator(field.0, field.1, '=');
  }

  /** Reading the segments of written fields stores each name with the
      decoded form of what was written for it. */
  lemma {:induction false} ReadWrittenFields(written: seq<(string, string)>, fields: seq<(string, string)>)
    requires |written| == |fields|
    requires forall i :: 0 <= i < |written| ==> IsWritable(written[i])
    requires forall i :: 0 <= i < |written| ==> written[i].0 == fields[i].0 && Unquote(written[i].1) == fields[i].1
    ensures ParamsReceived(FieldSegments(written)) == ToMap(fields)
  {
    if written != [] {
      var n := |written| - 1;
      var segments := FieldSegments(written);
      assert segments[..n] == FieldSegments(written[..n]);
      ReadWrittenFields(written[..n], fields[..n]);
      assert fields[..n] == fields[..|fields| - 1];
      ParseFieldSegment(written[n]);
    }
  }

  /** The query of at least one field is not empty. */
  lemma QueryOfFieldsNotEmpty(fields: seq<(string, string)>)
    requires fields != []
    ensures ToQuery(fields) != []
  {
    var segments := FieldSegments(fields);
    assert |segments[0]| >= 1;
    if |segments| > 1 {
      assert ToQuery(fields) == segments[0] + ['&'] + Join(segments[1..], '&');
    }
  }

  /** The path `prefix?query` for written fields reads back as `fields`. */
  lemma ReadQueryOfWrittenFields(prefix: string, written: seq<(string, string)>, fields: seq<(string, string)>)
    requires '?' !in prefix
    requires |written| == |fields|
    requires forall i :: 0 <= i < |written| ==> IsWritable(written[i])
    requires forall i :: 0 <= i < |written| ==> written[i].0 == fields[i].0 && Unquote(written[i].1) == fields[i].1
    ensures RequestParameters(prefix + "?" + ToQuery(written)) == ToMap(fields)
  {
    FirstQuestionMarkStartsQuery(prefix, ToQuery(written));
    if written != [] {
      QueryOfFieldsNotEmpty(written);
      var segments := FieldSegments(written);
      assert forall i :: 0 <= i < |segments| ==> '&' !in segments[i] by {
        forall i | 0 <= i < |segments| ensures '&' !in segments[i] {
          assert IsWritable(written[i]);
        }
      }
      SplitJoin(segments, '&');
      ReadWrittenFields(written, fields);
    }
  }

  /** Round trip for values that need no encoding: with names and values
      free of `&` and `=`, and values free of `%`, the query reads back as
      the fields (`?` may appear in both, as only the first one counts).
      `ToMapNames` and `ToMapValues` say what `ToMap(fields)` holds. */
  lemma PlainRoundTrip(prefix: string, fields: seq<(string, string)>)
    requires '?' !in prefix
    requires forall i :: 0 <= i < |fields| ==> IsWritable(fields[i]) && '%' !in fields[i].1
    ensures RequestParameters(prefix + "?" + ToQuery(fields)) == ToMap(fields)
  {
    ReadQueryOfWrittenFields(prefix, fields, fields);
  }

  /** Each value percent-encoded, the names as they are. */
  function Encoded(fields: seq<(string, string)>): (written: seq<(string, string)>)
    requires forall i :: 0 <= i < |fields| ==> IsOctets(fields[i].1)
    ensures |written| == |fields|
  {
    seq(|fields|, i requires 0 <= i < |fields| => (fields[i].0, Quote(fields[i].1)))
  }

  /** Round trip for any values: percent-encoded, they read back exactly, as
      the dictionary `ToMap(fields)` whose names `ToMapNames` and whose
      values `ToMapValues` give. */
  lemma EncodedRoundTrip(prefix: string, fields: seq<(string, string)>)
    requires '?' !in prefix
    requires forall i :: 0 <= i < |fields| ==> '&' !in fields[i].0 && '=' !in fields[i].0
    requires forall i :: 0 <= i < |fields| ==> IsOctets(fields[i].1)
    ensures RequestParameters(prefix + "?" + ToQuery(Encoded(fields))) == ToMap(fields)
  {
    var written := Encoded(fields);
    forall i | 0 <= i < |written|
      ensures IsWritable(written[i])
      ensures written[i].0 == fields[i].0 && Unquote(written[i].1) == fields[i].1
    {
      QuoteHasNoDelimiters(fields[i].1);
      UnquoteQuote(fields[i].1);
    }
    ReadQueryOfWrittenFields(prefix, written, fields);
  }
}
