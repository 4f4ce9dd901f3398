/**
 `EndpointsClient.get_o365_endpoints` and `export_locally` of the debugging script: the
 `urls` value of every Office 365 record that has the key is collected, passed through
 `json.loads(json.dumps(...))`, flattened into one list of URLs and written to a single
 text file, one URL per line.

 The script keeps the collected list in the instance attribute `urls_output`, which only
 the loop assigns and `clear()` never resets. A call whose response has no `urls` key at
 all therefore reads the list of an earlier call, or fails with AttributeError when no
 earlier call assigned it.
 */
module UrlFlattening {
  import opened Common
  import opened TextFiles
  import JsonCodec
  import IpExport
  import PosixPath

  type Entry = JsonCodec.Entry

  /** The part of the client's state the call depends on: `urls_output`, None while the
      attribute has never been assigned. */
  datatype UrlClient = UrlClient(urlsOutput: Option<seq<Entry>>)

  /** A client just constructed: `__init__` and `clear()` do not assign `urls_output`. */
  const Fresh: UrlClient := UrlClient(None)

  /** The outcome of one call: the client afterwards, and the flat list or the exception. */
  datatype Call = Call(client: UrlClient, result: Result<seq<string>>)

  /** `"urls" in key`: a key-presence test, true for a `null` or empty value too. */
  predicate HasUrlsKey(r: Record)
  {
    !r.urls.Absent?
  }

  /** `key["urls"]` of a record that has the key. */
  function UrlsValue(r: Record): (e: Entry)
    requires HasUrlsKey(r)
    ensures e.None? <==> r.urls.Null?
    ensures e.Some? ==> e.value == r.urls.value
  {
    if r.urls.Null? then None else Some(r.urls.value)
  }

  predicate AnyUrls(rs: seq<Record>)
  {
    exists j :: 0 <= j < |rs| && HasUrlsKey(rs[j])
  }

  predicate AnyNullUrls(rs: seq<Record>)
  {
    exists j :: 0 <= j < |rs| && rs[j].urls.Null?
  }

  /** The list the loop appends to: one entry per record holding the key, in order. */
  function CollectUrls(rs: seq<Record>): (us: seq<Entry>)
    ensures |us| == 0 <==> !AnyUrls(rs)
    ensures (exists i :: 0 <= i < |us| && us[i].None?) <==> AnyNullUrls(rs)
  {
    if |rs| == 0 then []
    else
      var p := rs[..|rs| - 1];
      var last := rs[|rs| - 1];
      var us := CollectUrls(p);
      assert forall j :: 0 <= j < |p| ==> p[j] == rs[j];
      if HasUrlsKey(last) then
        var r := us + [UrlsValue(last)];
        assert r[|us|] == UrlsValue(last);
        assert forall i :: 0 <= i < |us| ==> r[i] == us[i];
        r
      else us
  }

  /** The reference the flat list is measured against: the URL lists present in the
      response, in record order. */
  function PresentUrls(rs: seq<Record>): seq<seq<string>>
  {
    if |rs| == 0 then []
    else
      var p := PresentUrls(rs[..|rs| - 1]);
      var last := rs[|rs| - 1];
      if last.urls.Present? then p + [last.urls.value] else p
  }

  /** `[item for sublist in lists for item in sublist]`: iterating a `null` sublist raises
      TypeError. */
  function Flatten(es: seq<Entry>): (r: Result<seq<string>>)
    ensures r.Err? <==> exists i :: 0 <= i < |es| && es[i].None?
    ensures r.Err? ==> r.error == NotIterable
  {
    if |es| == 0 then Ok([])
    else
      var p := es[..|es| - 1];
      assert forall i :: 0 <= i < |p| ==> p[i] == es[i];
      match Flatten(p)
      case Err(e) => Err(e)
      case Ok(init) =>
        if es[|es| - 1].None? then Err(NotIterable) else Ok(init + es[|es| - 1].value)
  }

  /** `get_o365_endpoints()` on `client`, given the decoded Office 365 response. */
  function GetO365Endpoints(client: UrlClient, response: seq<Record>): (c: Call)
    ensures c.client.urlsOutput.Some? <==> client.urlsOutput.Some? || AnyUrls(response)
    ensures !AnyUrls(response) ==> c.client == client
    ensures c.result.Err? ==> c.result.error in {AttributeError("urls_output"), NotIterable}
    ensures c.result.Err? && c.result.error == AttributeError("urls_output") <==>
      client.urlsOutput.None? && !AnyUrls(response)
  {
    var urls := CollectUrls(response);
    var next := if |urls| > 0 then UrlClient(Some(urls)) else client;
    match next.urlsOutput
    case None => Call(next, Err(AttributeError("urls_output")))
    case Some(output) =>
      JsonCodec.LoadsDumps(output);
      var decoded := JsonCodec.Loads(JsonCodec.Dumps(output));
      Call(next, Flatten(decoded.value))
  }

  /** Flattening the collected list is concatenating the present URL lists, unless some
      record has `"urls": null`. */
  lemma {:induction false} FlattenCollected(rs: seq<Record>)
    ensures Flatten(CollectUrls(rs)) ==
      if AnyNullUrls(rs) then Err(NotIterable) else Ok(Concat(PresentUrls(rs)))
  {
    if |rs| > 0 {
      var p := rs[..|rs| - 1];
      var last := rs[|rs| - 1];
      FlattenCollected(p);
      RecordStep(rs);
      var us := CollectUrls(p);
      if HasUrlsKey(last) {
        FlattenSnoc(us, UrlsValue(last));
        if last.urls.Present? {
          ConcatSnoc(PresentUrls(p), last.urls.value);
        }
      }
    }
  }

  /** What the last record adds to the collected list, the present lists and the `null`
      test. */
  lemma RecordStep(rs: seq<Record>)
    requires |rs| > 0
    ensures var p := rs[..|rs| - 1];
      var last := rs[|rs| - 1];
      && CollectUrls(rs) == (if HasUrlsKey(last) then CollectUrls(p) + [UrlsValue(last)] else CollectUrls(p))
      && PresentUrls(rs) == (if last.urls.Present? then PresentUrls(p) + [last.urls.value] else PresentUrls(p))
      && (AnyNullUrls(rs) <==> AnyNullUrls(p) || last.urls.Null?)
  {
    var p := rs[..|rs| - 1];
    assert forall j :: 0 <= j < |p| ==> p[j] == rs[j];
    assert AnyNullUrls(rs) ==> AnyNullUrls(p) || rs[|rs| - 1].urls.Null? by {
      if AnyNullUrls(rs) {
        var j :| 0 <= j < |rs| && rs[j].urls.Null?;
        if j < |p| {
          assert p[j].urls.Null?;
        }
      }
    }
  }

  /** Flattening one more entry: a `null` raises, a list is appended. */
  lemma FlattenSnoc(es: seq<Entry>, e: Entry)
    ensures Flatten(es + [e]) ==
      if Flatten(es).Err? || e.None? then Err(NotIterable) else Ok(Flatten(es).value + e.value)
  {
    assert (es + [e])[..|es|] == es;
  }

  /** A call whose response has a `urls` key: the result depends on this response alone.
      It fails with TypeError when some record has `"urls": null`, and otherwise is every
      present URL list concatenated in record order. */
  lemma CallWithUrls(client: UrlClient, response: seq<Record>)
    requires AnyUrls(response)
    ensures var c := GetO365Endpoints(client, response);
      && c.client.urlsOutput == Some(CollectUrls(response))
      && (c.result.Ok? <==> !AnyNullUrls(response))
      && (c.result.Err? ==> c.result.error == NotIterable)
      && (c.result.Ok? ==> c.result.value == Concat(PresentUrls(response)))
      && (c.result.Ok? ==> |c.result.value| == TotalLength(PresentUrls(response)))
  {
    JsonCodec.LoadsDumps(CollectUrls(response));
    FlattenCollected(response);
    ConcatLength(PresentUrls(response));
  }

  /** On a fresh client the call succeeds exactly when some record has the `urls` key and
      none has it `null`. */
  lemma FreshCall(response: seq<Record>)
    ensures GetO365Endpoints(Fresh, response).result.Ok? <==>
      AnyUrls(response) && !AnyNullUrls(response)
  {
    if AnyUrls(response) {
      CallWithUrls(Fresh, response);
    }
  }

  /** A response without any `urls` key repeats the previous call's result: the list in
      `urls_output` is stale rather than empty. */
  lemma StaleOutput(client: UrlClient, first: seq<Record>, second: seq<Record>)
    requires !AnyUrls(second)
    ensures var c1 := GetO365Endpoints(client, first);
      GetO365Endpoints(c1.client, second) == c1
  {
  }

  /** Presence, not truthiness, decides: an empty list is collected and the call succeeds
      with no URLs, while a `null` value makes the whole call fail. */
  lemma KeyPresenceExample()
    ensures GetO365Endpoints(Fresh, [Record(Some("Exchange"), None, Present([]))]).result == Ok([])
    ensures GetO365Endpoints(Fresh, [Record(Some("Exchange"), None, Null)]).result == Err(NotIterable)
    ensures GetO365Endpoints(Fresh, [Record(Some("Exchange"), None, Absent)]).result ==
      Err(AttributeError("urls_output"))
  {
    var empty := [Record(Some("Exchange"), None, Present([]))];
    assert HasUrlsKey(empty[0]);
    CallWithUrls(Fresh, empty);
    var nul := [Record(Some("Exchange"), None, Null)];
    assert HasUrlsKey(nul[0]) && nul[0].urls.Null?;
    CallWithUrls(Fresh, nul);
  }

  // ---------------------------------------------------------------------------
  // Export
  // ---------------------------------------------------------------------------

  /** `f"{artifacts_path}/{prepend_value}.txt"`: one file, named after the prefix alone. It
      is the name the IP export gives to an empty service-area name, so with the same
      prefix the two exporters can write the same file. */
  function UrlFileName(artifactsPath: string, prefix: string): (path: string)
    ensures path == IpExport.FileName(artifactsPath, prefix, "")
    ensures PosixPath.StartsWith(path, artifactsPath + "/")
    ensures '/' !in prefix ==> PosixPath.Basename(path) == prefix + ".txt"
  {
    assert prefix + "" == prefix;
    artifactsPath + "/" + prefix + ".txt"
  }

  /** The files after an export, the client afterwards, and the exception if any. */
  datatype UrlExport = UrlExport(files: FileSystem, client: UrlClient, error: Option<Error>)

  /** `export_locally(prepend_value)`: the file is opened for writing, and so emptied,
      before the endpoints are fetched; a failing fetch leaves it empty. */
  function ExportUrls(fs: FileSystem, client: UrlClient, artifactsPath: string, prefix: string,
                      response: seq<Record>): (e: UrlExport)
    ensures var name := UrlFileName(artifactsPath, prefix);
      && e.files.Keys == fs.Keys + {name}
      && (forall p :: p in fs && p != name ==> e.files[p] == fs[p])
      && e.client == GetO365Endpoints(client, response).client
      && (e.error.Some? <==> GetO365Endpoints(client, response).result.Err?)
      && (e.error.Some? ==> e.files[name] == "")
      && (e.error.None? ==>
            SplitLines(e.files[name]) == GetO365Endpoints(client, response).result.value
            || exists i :: 0 <= i < |GetO365Endpoints(client, response).result.value| &&
                 '\n' in GetO365Endpoints(client, response).result.value[i])
      && (e.error.None? ==>
            |e.files[name]| == LinesSize(GetO365Endpoints(client, response).result.value))
  {
    var name := UrlFileName(artifactsPath, prefix);
    var truncated := fs[name := ""];
    var c := GetO365Endpoints(client, response);
    match c.result
    case Err(err) => UrlExport(truncated, c.client, Some(err))
    case Ok(flat) =>
      assert (forall i :: 0 <= i < |flat| ==> '\n' !in flat[i]) ==> SplitLines(JoinLines(flat)) == flat by {
        if forall i :: 0 <= i < |flat| ==> '\n' !in flat[i] {
          SplitJoinLines(flat);
        }
      }
      JoinLinesLength(flat);
      UrlExport(truncated[name := JoinLines(flat)], c.client, None)
  }

  /** No URL of any record contains a newline. */
  ghost predicate UrlsAreLines(rs: seq<Record>)
  {
    forall j, n :: 0 <= j < |rs| && rs[j].urls.Present? && 0 <= n < |rs[j].urls.value| ==>
      '\n' !in rs[j].urls.value[n]
  }

  lemma {:induction false} PresentUrlsAreLines(rs: seq<Record>)
    requires UrlsAreLines(rs)
    ensures forall n :: 0 <= n < |Concat(PresentUrls(rs))| ==> '\n' !in Concat(PresentUrls(rs))[n]
  {
    if |rs| > 0 {
      var p := rs[..|rs| - 1];
      assert UrlsAreLines(p) by {
        assert forall j :: 0 <= j < |p| ==> p[j] == rs[j];
      }
      PresentUrlsAreLines(p);
      if rs[|rs| - 1].urls.Present? {
        ConcatSnoc(PresentUrls(p), rs[|rs| - 1].urls.value);
      }
    }
  }

  /** A successful export on a response with URLs holds, line by line, every present URL
      list in record order; a response with a `null` list leaves the file empty. */
  lemma ExportReadsBack(fs: FileSystem, client: UrlClient, artifactsPath: string, prefix: string,
                        response: seq<Record>)
    requires AnyUrls(response) && UrlsAreLines(response)
    ensures var e := ExportUrls(fs, client, artifactsPath, prefix, response);
      var text := e.files[UrlFileName(artifactsPath, prefix)];
      && (e.error.None? <==> !AnyNullUrls(response))
      && (e.error.None? ==> SplitLines(text) == Concat(PresentUrls(response)))
      && (e.error.Some? ==> text == "")
  {
    CallWithUrls(client, response);
    PresentUrlsAreLines(response);
  }

  /** The first export of a fresh client from a response without `urls` keys fails with
      AttributeError, yet leaves an empty file behind. */
  lemma FreshExportWithoutUrls(fs: FileSystem, artifactsPath: string, prefix: string, response: seq<Record>)
    requires !AnyUrls(response)
    ensures var e := ExportUrls(fs, Fresh, artifactsPath, prefix, response);
      && e.error == Some(AttributeError("urls_output"))
      && UrlFileName(artifactsPath, prefix) in e.files
      && e.files[UrlFileName(artifactsPath, prefix)] == ""
  {
  }

  /** The script's own call, with working path "." and prefix "urls", writes
      `./artifacts/urls.txt`. */
  lemma ScriptFileName()
    ensures UrlFileName(IpExport.ArtifactsPath("."), "urls") == "./artifacts/urls.txt"
  {
  }
}
