/**
 * `get_gene_interactions` (genepathwaygenerator.py:44-76): one query to the
 * STRING network endpoint, and the filter that keeps the interactions whose
 * confidence reaches the threshold and whose two genes were both asked for.
 * The HTTP exchange is a parameter, `service`, from request to response.
 */
module StringDb {
  import opened Wrappers
  import opened Strings

  /** One object of the JSON array the endpoint returns; a field the object
      lacks is `None`. */
  datatype Record = Record(nameA: Option<string>, nameB: Option<string>, score: Option<real>)

  /** The body as `response.json()` sees it. */
  datatype Body = Records(records: seq<Record>) | NotJson(reason: string)

  /** What `requests.get` gives back: a response, or the `RequestException`
      it raised (unreachable host, the 30-second timeout). */
  datatype Response = Response(status: int, body: Body) | TransportFailure(reason: string)

  datatype Request = Request(url: string, identifiers: string, species: int, callerIdentity: string, timeout: int)

  /** One returned edge `(a, b, score)`. */
  datatype Interaction = Interaction(geneA: string, geneB: string, score: real)

  /** What the fetcher shows through `st.error` before returning `[]`. */
  datatype Alert = HttpError(status: int) | NetworkError(reason: string)

  /** How a call ends: the list it returns with the alert it showed, or the
      `KeyError` it raises for a missing gene name. */
  datatype Outcome = Returned(edges: seq<Interaction>, alert: Option<Alert>) | Raised(missingKey: string)

  const Url := "https://string-db.org/api/json/network"
  const Species := 9606
  const CallerIdentity := "streamlit-app"
  const TimeoutSeconds := 30

  /** The GET request for a gene list: identifiers joined by carriage returns. */
  function QueryFor(genes: seq<string>): Request
  {
    Request(Url, Join(genes, '\r'), Species, CallerIdentity, TimeoutSeconds)
  }

  /** `interaction.get("score", 0.0)`. */
  function ScoreOf(r: Record): real
  {
    match r.score
    case Some(s) => s
    case None => 0.0
  }

  /** One turn of the loop at :64-71 over a record, after `edges` so far. */
  function Step(genes: seq<string>, threshold: real, edges: seq<Interaction>, r: Record): Result<seq<Interaction>, string>
  {
    var score := ScoreOf(r);
    if score < threshold then Ok(edges)
    else if r.nameA.None? then Err("preferredName_A")
    else if r.nameB.None? then Err("preferredName_B")
    else if r.nameA.value in genes && r.nameB.value in genes then
      Ok(edges + [Interaction(r.nameA.value, r.nameB.value, score)])
    else Ok(edges)
  }

  /** The loop at :63-72 run over `data`: the edges it collects, or the key
      whose lookup raised first. */
  function Filter(genes: seq<string>, threshold: real, data: seq<Record>): (r: Result<seq<Interaction>, string>)
    ensures r.Ok? ==> |r.value| <= |data|
    ensures r.Err? ==> r.error in {"preferredName_A", "preferredName_B"}
    decreases |data|
  {
    if data == [] then Ok([])
    else
      match Filter(genes, threshold, data[..|data| - 1])
      case Err(key) => Err(key)
      case Ok(edges) => Step(genes, threshold, edges, data[|data| - 1])
  }

  /** What `get_gene_interactions(genes, threshold)` does when the endpoint
      answers `service(request)`. */
  function FetchOutcome(genes: seq<string>, threshold: real, service: Request -> Response): (r: Outcome)
    ensures |genes| < 2 ==> r == Returned([], None)
    ensures |genes| >= 2 && service(QueryFor(genes)).TransportFailure? ==>
      r == Returned([], Some(NetworkError(service(QueryFor(genes)).reason)))
    ensures |genes| >= 2 && service(QueryFor(genes)).Response? && service(QueryFor(genes)).status != 200 ==>
      r == Returned([], Some(HttpError(service(QueryFor(genes)).status)))
    ensures (&& |genes| >= 2 && service(QueryFor(genes)).Response? && service(QueryFor(genes)).status == 200
             && service(QueryFor(genes)).body.NotJson?) ==>
      r == Returned([], Some(NetworkError(service(QueryFor(genes)).body.reason)))
    ensures (&& |genes| >= 2 && service(QueryFor(genes)).Response? && service(QueryFor(genes)).status == 200
             && service(QueryFor(genes)).body.Records?) ==>
      && (r.Raised? <==> Filter(genes, threshold, service(QueryFor(genes)).body.records).Err?)
      && (r.Returned? ==> r == Returned(Filter(genes, threshold, service(QueryFor(genes)).body.records).value, None))
    ensures r.Returned? && r.alert.Some? ==> r.edges == []
    ensures r.Returned? ==> forall e :: e in r.edges ==> Admissible(genes, threshold, e)
  {
    if |genes| < 2 then Returned([], None)
    else
      match service(QueryFor(genes))
      case TransportFailure(reason) => Returned([], Some(NetworkError(reason)))
      case Response(status, body) =>
        if status != 200 then Returned([], Some(HttpError(status)))
        else
          match body
          case NotJson(reason) => Returned([], Some(NetworkError(reason)))
          case Records(data) =>
            match Filter(genes, threshold, data)
            case Err(key) => Raised(key)
            case Ok(edges) =>
              FilterSound(genes, threshold, data);
              Returned(edges, None)
  }

  /** `get_gene_interactions` itself: the request it sends (none for fewer
      than two genes) and how it ends. */
  method GetGeneInteractions(genes: seq<string>, threshold: real, service: Request -> Response)
    returns (result: Outcome, sent: Option<Request>)
    ensures sent == if |genes| < 2 then None else Some(QueryFor(genes))
    ensures result == FetchOutcome(genes, threshold, service)
  {
    if |genes| < 2 {
      return Returned([], None), None;
    }
    var request := QueryFor(genes);
    sent := Some(request);
    var response := service(request);
    if response.TransportFailure? {
      return Returned([], Some(NetworkError(response.reason))), sent;
    }
    if response.status != 200 {
      return Returned([], Some(HttpError(response.status))), sent;
    }
    if response.body.NotJson? {
      return Returned([], Some(NetworkError(response.body.reason))), sent;
    }
    var data := response.body.records;
    var edges: seq<Interaction> := [];
    var i := 0;
    while i < |data|
      invariant 0 <= i <= |data|
      invariant Filter(genes, threshold, data[..i]) == Ok(edges)
    {
      var interaction := data[i];
      assert data[..i + 1][..i] == data[..i] && data[..i + 1][i] == interaction;
      var score := ScoreOf(interaction);
      if score >= threshold {
        if interaction.nameA.None? {
          FilterErrPersists(genes, threshold, data, i + 1);
          return Raised("preferredName_A"), sent;
        }
        var a := interaction.nameA.value;
        if interaction.nameB.None? {
          FilterErrPersists(genes, threshold, data, i + 1);
          return Raised("preferredName_B"), sent;
        }
        var b := interaction.nameB.value;
        if a in genes && b in genes {
          edges := edges + [Interaction(a, b, score)];
        }
      }
      i := i + 1;
    }
    assert data[..|data|] == data;
    result := Returned(edges, None);
  }

  /** Once a lookup has raised, later records change nothing. */
  lemma {:induction false} FilterErrPersists(genes: seq<string>, threshold: real, data: seq<Record>, m: nat)
    requires m <= |data| && Filter(genes, threshold, data[..m]).Err?
    ensures Filter(genes, threshold, data) == Filter(genes, threshold, data[..m])
    decreases |data| - m
  {
    if m < |data| {
      assert data[..m + 1][..m] == data[..m];
      FilterErrPersists(genes, threshold, data, m + 1);
    } else {
      assert data[..m] == data;
    }
  }

  /** An edge the fetcher may return: confident enough, both genes asked for. */
  predicate Admissible(genes: seq<string>, threshold: real, e: Interaction)
  {
    e.score >= threshold && e.geneA in genes && e.geneB in genes
  }

  /** Every returned edge reaches the threshold and has both genes in the list. */
  lemma {:induction false} FilterSound(genes: seq<string>, threshold: real, data: seq<Record>)
    ensures Filter(genes, threshold, data).Ok? ==>
      forall e :: e in Filter(genes, threshold, data).value ==> Admissible(genes, threshold, e)
    decreases |data|
  {
    if data != [] {
      FilterSound(genes, threshold, data[..|data| - 1]);
    }
  }

  /** A record the loop turns into an edge. */
  predicate Qualifies(genes: seq<string>, threshold: real, r: Record)
  {
    && ScoreOf(r) >= threshold
    && r.nameA.Some? && r.nameB.Some?
    && r.nameA.value in genes && r.nameB.value in genes
  }

  function EdgeOf(r: Record): Interaction
    requires r.nameA.Some? && r.nameB.Some?
  {
    Interaction(r.nameA.value, r.nameB.value, ScoreOf(r))
  }

  /** `idx` lists, in increasing order, exactly the positions of the
      qualifying records of `data`, and `edges[k]` is made from record `idx[k]`. */
  ghost predicate Selects(genes: seq<string>, threshold: real, data: seq<Record>, idx: seq<int>, edges: seq<Interaction>)
  {
    && |idx| == |edges|
    && (forall k :: 0 <= k < |idx| ==> 0 <= idx[k] < |data| && Qualifies(genes, threshold, data[idx[k]])
                                       && edges[k] == EdgeOf(data[idx[k]]))
    && (forall k, l :: 0 <= k < l < |idx| ==> idx[k] < idx[l])
    && (forall j :: 0 <= j < |data| && Qualifies(genes, threshold, data[j]) ==> j in idx)
  }

  /** Extending the records by one that does not qualify keeps the selection. */
  lemma SelectsSkip(genes: seq<string>, threshold: real, data: seq<Record>, idx: seq<int>, edges: seq<Interaction>)
    requires data != [] && !Qualifies(genes, threshold, data[|data| - 1])
    requires Selects(genes, threshold, data[..|data| - 1], idx, edges)
    ensures Selects(genes, threshold, data, idx, edges)
  {
    var init := data[..|data| - 1];
    assert forall j :: 0 <= j < |init| ==> data[j] == init[j];
  }

  /** Extending the records by one that qualifies selects it last. */
  lemma SelectsTake(genes: seq<string>, threshold: real, data: seq<Record>, idx: seq<int>, edges: seq<Interaction>)
    requires data != [] && Qualifies(genes, threshold, data[|data| - 1])
    requires Selects(genes, threshold, data[..|data| - 1], idx, edges)
    ensures Selects(genes, threshold, data, idx + [|data| - 1], edges + [EdgeOf(data[|data| - 1])])
  {
    var init := data[..|data| - 1];
    assert forall j :: 0 <= j < |init| ==> data[j] == init[j];
  }

  /** The returned edges are the qualifying records, in response order, one
      edge per record: nothing dropped, merged, reordered or mirrored. */
  lemma {:induction false} FilterSelects(genes: seq<string>, threshold: real, data: seq<Record>)
    requires Filter(genes, threshold, data).Ok?
    ensures exists idx :: Selects(genes, threshold, data, idx, Filter(genes, threshold, data).value)
    decreases |data|
  {
    if data == [] {
      assert Selects(genes, threshold, data, [], []);
    } else {
      var init := data[..|data| - 1];
      var last := data[|data| - 1];
      assert Filter(genes, threshold, init).Ok?;
      var edges := Filter(genes, threshold, init).value;
      FilterSelects(genes, threshold, init);
      var idx :| Selects(genes, threshold, init, idx, edges);
      if Qualifies(genes, threshold, last) {
        SelectsTake(genes, threshold, data, idx, edges);
        assert Filter(genes, threshold, data).value == edges + [EdgeOf(last)];
      } else {
        SelectsSkip(genes, threshold, data, idx, edges);
        assert Filter(genes, threshold, data).value == edges;
      }
    }
  }

  /** A record lacking a gene name raises exactly when its score passes the
      threshold: the names are looked up only after the score test. */
  lemma {:induction false} FilterRaises(genes: seq<string>, threshold: real, data: seq<Record>)
    ensures Filter(genes, threshold, data).Err? <==>
      exists j :: 0 <= j < |data| && ScoreOf(data[j]) >= threshold && (data[j].nameA.None? || data[j].nameB.None?)
    decreases |data|
  {
    if data != [] {
      var n := |data| - 1;
      FilterRaises(genes, threshold, data[..n]);
      assert forall j :: 0 <= j < n ==> data[..n][j] == data[j];
    }
  }

  /** The gene list survives the trip through the `identifiers` parameter:
      splitting it at carriage returns gives the genes back. */
  lemma IdentifiersRoundTrip(genes: seq<string>)
    requires |genes| >= 1
    requires forall k :: 0 <= k < |genes| ==> NoSpace(genes[k])
    ensures SplitOn(QueryFor(genes).identifiers, '\r') == genes
  {
    forall k | 0 <= k < |genes| ensures '\r' !in genes[k] {
      assert IsSpace('\r');
    }
    SplitOnJoin(genes, '\r');
  }

  /** Of (EGFR, KRAS, 0.9), (KRAS, BRAF, 0.5) and
      (BRAF, TP53, 0.95) at threshold 0.7 only the first is kept: the second
      is below the threshold and TP53 was not asked for. */
  lemma FilterExample()
    ensures Filter(["BRAF", "EGFR", "KRAS"], 0.7, [
      Record(Some("EGFR"), Some("KRAS"), Some(0.9)),
      Record(Some("KRAS"), Some("BRAF"), Some(0.5)),
      Record(Some("BRAF"), Some("TP53"), Some(0.95))])
      == Ok([Interaction("EGFR", "KRAS", 0.9)])
  {
    var genes := ["BRAF", "EGFR", "KRAS"];
    var data := [
      Record(Some("EGFR"), Some("KRAS"), Some(0.9)),
      Record(Some("KRAS"), Some("BRAF"), Some(0.5)),
      Record(Some("BRAF"), Some("TP53"), Some(0.95))];
    assert data[..0] == [];
    assert data[..1][..0] == [];
    assert data[..1][0] == data[0];
    assert "EGFR" in genes && "KRAS" in genes;
    assert Filter(genes, 0.7, data[..1][..0]) == Ok([]);
    assert ScoreOf(data[0]) == 0.9;
    assert [] + [Interaction("EGFR", "KRAS", 0.9)] == [Interaction("EGFR", "KRAS", 0.9)];
    assert Step(genes, 0.7, [], data[0]) == Ok([Interaction("EGFR", "KRAS", 0.9)]);
    assert Filter(genes, 0.7, data[..1]) == Ok([Interaction("EGFR", "KRAS", 0.9)]);
    assert data[..2][..1] == data[..1];
    assert Filter(genes, 0.7, data[..2]) == Ok([Interaction("EGFR", "KRAS", 0.9)]);
    assert data[..2] == data[..|data| - 1];
    assert "TP53" !in genes;
  }
}
