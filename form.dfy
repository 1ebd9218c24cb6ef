/**
  The App component's state and its request life cycle: five inputs edited
  one at a time, a submit action enabled only once an exchange is chosen,
  and handleFetch, which marks the request as loading, sends it, and on
  settlement records either the response body or an error message.
  The network is a parameter: fetch's outcome is a FetchResult value.
*/
module Form {
  import opened Wrappers
  import Decimal
  import UriComponent
  import Query

  /** A JSON value as response.json() yields it; JNull is also React's `null` state. */
  datatype Json =
    | JNull
    | JBool(b: bool)
    | JNumber(n: int)
    | JString(s: string)
    | JArray(items: seq<Json>)
    | JObject(members: seq<(string, Json)>)

  // ---------------------------------------------------------------------
  // The two selectors.

  /** An <option>: the text shown and the value stored. */
  datatype Choice = Choice(text: string, value: string)

  const ExchangeOptions: seq<Choice> := [
    Choice("Select Exchange", ""),
    Choice("NFO", "NFO"),
    Choice("NSE", "NSE"),
    Choice("Equity", "EQ")
  ]

  const ResolutionOptions: seq<Choice> := [
    Choice("Select Resolution", ""),
    Choice("5-Minutes", "5"),
    Choice("10-Minutes", "10"),
    Choice("15-Minutes", "15"),
    Choice("30-Minutes", "30"),
    Choice("1-Day", "1D")
  ]

  function ChoiceValues(options: seq<Choice>): set<string> {
    set i | 0 <= i < |options| :: options[i].value
  }

  /** The values a selector can store; the first option is the empty placeholder. */
  lemma OptionValues()
    ensures ChoiceValues(ExchangeOptions) == {"", "NFO", "NSE", "EQ"}
    ensures ChoiceValues(ResolutionOptions) == {"", "5", "10", "15", "30", "1D"}
    ensures forall i :: 0 <= i < |ExchangeOptions| ==> (ExchangeOptions[i].value == "" <==> i == 0)
    ensures forall i :: 0 <= i < |ResolutionOptions| ==> (ResolutionOptions[i].value == "" <==> i == 0)
  {
    assert ExchangeOptions[0].value == "";
    assert ExchangeOptions[1].value == "NFO";
    assert ExchangeOptions[2].value == "NSE";
    assert ExchangeOptions[3].value == "EQ";
    assert ResolutionOptions[0].value == "";
    assert ResolutionOptions[1].value == "5";
    assert ResolutionOptions[2].value == "10";
    assert ResolutionOptions[3].value == "15";
    assert ResolutionOptions[4].value == "30";
    assert ResolutionOptions[5].value == "1D";
  }

  /** Every selectable value goes into the URL unchanged by encodeURIComponent. */
  lemma SelectableValuesSentVerbatim(v: string)
    requires v in ChoiceValues(ExchangeOptions) || v in ChoiceValues(ResolutionOptions)
    ensures UriComponent.Encode(v) == v
  {
    OptionValues();
    assert v in {"", "NFO", "NSE", "EQ", "5", "10", "15", "30", "1D"};
    forall i | 0 <= i < |v| ensures UriComponent.IsUnreserved(v[i]) {
      assert UriComponent.IsAlphaNumeric(v[i]);
    }
    UriComponent.EncodeIdentity(v);
  }

  // ---------------------------------------------------------------------
  // Settlement of one request.

  /** What parsing the response body gave. */
  datatype Body = Parsed(value: Json) | Malformed(message: string)

  /** What fetch delivered: a response with its status, or a rejection (network failure). */
  datatype FetchResult = Response(status: nat, body: Body) | Rejected(message: string)

  /** response.ok: a status in the 200 range. */
  predicate IsOk(status: nat) {
    200 <= status <= 299
  }

  const HttpErrorPrefix: string := "HTTP Error: "

  /** The message handleFetch throws for a status that is not ok. */
  function HttpError(status: nat): string {
    HttpErrorPrefix + Decimal.Show(status)
  }

  /** The status named by an HTTP error message, if it is one. */
  function StatusOf(message: string): Option<nat> {
    if |message| >= |HttpErrorPrefix| && message[..|HttpErrorPrefix|] == HttpErrorPrefix
    then Decimal.Parse(message[|HttpErrorPrefix|..])
    else None
  }

  /** The status can be read back from the error message. */
  lemma StatusOfHttpError(status: nat)
    ensures StatusOf(HttpError(status)) == Some(status)
  {
    var m := HttpError(status);
    assert m[..|HttpErrorPrefix|] == HttpErrorPrefix;
    assert m[|HttpErrorPrefix|..] == Decimal.Show(status);
    Decimal.ParseShow(status);
  }

  /** The response and error state a settled request leaves. */
  datatype Settlement = Settlement(responseData: Json, error: Option<string>)

  /**
    The try/catch of handleFetch: an ok response stores its parsed body; a
    status that is not ok, a body that does not parse and a rejected fetch
    each store their message as the error, with the response left cleared.
  */
  function Settle(r: FetchResult): Settlement {
    match r
    case Rejected(message) => Settlement(JNull, Some(message))
    case Response(status, body) =>
      if !IsOk(status) then Settlement(JNull, Some(HttpError(status)))
      else
        match body
        case Parsed(value) => Settlement(value, None)
        case Malformed(message) => Settlement(JNull, Some(message))
  }

  /**
    A settled request never shows a response and an error together, and shows
    one of them unless the body was the JSON value null, which the component
    cannot tell apart from "no response".
  */
  lemma SettleExclusive(r: FetchResult)
    ensures Settle(r).error.None? || Settle(r).responseData == JNull
    ensures Settle(r).error.Some? || Settle(r).responseData != JNull
            <==> !(r.Response? && IsOk(r.status) && r.body == Parsed(JNull))
  {
  }

  /** The error is set exactly on failure, and says which failure it was. */
  lemma SettleError(r: FetchResult)
    ensures Settle(r).error.None? <==> r.Response? && IsOk(r.status) && r.body.Parsed?
    ensures Settle(r).error.None? ==> Settle(r).responseData == r.body.value
    ensures r.Response? && !IsOk(r.status) ==> Settle(r).error == Some(HttpError(r.status))
    ensures r.Response? && !IsOk(r.status) ==> StatusOf(Settle(r).error.value) == Some(r.status)
    ensures r.Response? && IsOk(r.status) && r.body.Malformed? ==> Settle(r).error == Some(r.body.message)
    ensures r.Rejected? ==> Settle(r).error == Some(r.message)
  {
    if r.Response? && !IsOk(r.status) {
      StatusOfHttpError(r.status);
    }
  }

  // ---------------------------------------------------------------------
  // The component.

  /** The request state the page below the form is rendered from. */
  datatype Display = Idle | Loading | Succeeded(data: Json) | Failed(message: string)

  class App {
    /** The selected exchange, held in the component's `apiUrl` state. */
    var apiUrl: string
    var paramToken: string
    var paramResolution: string
    var fromDate: string
    var toDate: string
    var responseData: Json
    var loading: bool
    var error: Option<string>

    /** While loading nothing is shown, and a response and an error never coexist. */
    ghost predicate Valid()
      reads this
    {
      && (loading ==> responseData == JNull && error == None)
      && (error == None || responseData == JNull)
    }

    /** The inputs handleFetch reads. */
    function Inputs(): Query.Fields
      reads this
    {
      Query.Fields(paramToken, paramResolution, fromDate, toDate, apiUrl)
    }

    /** The Fetch button is enabled. */
    predicate CanSubmit()
      reads this
    {
      apiUrl != ""
    }

    ghost function Phase(): Display
      reads this
    {
      if loading then Loading
      else if error.Some? then Failed(error.value)
      else if responseData != JNull then Succeeded(responseData)
      else Idle
    }

    /** Mounting: every input empty, nothing loaded, no error. */
    constructor ()
      ensures Valid() && Phase() == Idle && !CanSubmit()
      ensures Inputs() == Query.Fields("", "", "", "", "")
      ensures responseData == JNull && !loading && error == None
    {
      apiUrl, paramToken, paramResolution, fromDate, toDate := "", "", "", "", "";
      responseData, loading, error := JNull, false, None;
    }

    method SetApiUrl(value: string)
      requires Valid()
      modifies this`apiUrl
      ensures Valid() && apiUrl == value
      ensures Inputs() == old(Inputs()).(exchange := value)
      ensures Phase() == old(Phase())
      ensures CanSubmit() <==> value != ""
    {
      apiUrl := value;
    }

    method SetResolution(value: string)
      requires Valid()
      modifies this`paramResolution
      ensures Valid() && paramResolution == value
      ensures Inputs() == old(Inputs()).(resolution := value)
      ensures Phase() == old(Phase())
    {
      paramResolution := value;
    }

    method SetToken(value: string)
      requires Valid()
      modifies this`paramToken
      ensures Valid() && paramToken == value
      ensures Inputs() == old(Inputs()).(token := value)
      ensures Phase() == old(Phase())
    {
      paramToken := value;
    }

    method SetFromDate(value: string)
      requires Valid()
      modifies this`fromDate
      ensures Valid() && fromDate == value
      ensures Inputs() == old(Inputs()).(from := value)
      ensures Phase() == old(Phase())
    {
      fromDate := value;
    }

    method SetToDate(value: string)
      requires Valid()
      modifies this`toDate
      ensures Valid() && toDate == value
      ensures Inputs() == old(Inputs()).(to := value)
      ensures Phase() == old(Phase())
    {
      toDate := value;
    }

    /** The exchange selector's onChange: the stored value is the chosen option's. */
    method ChooseExchange(i: nat)
      requires Valid() && i < |ExchangeOptions|
      modifies this`apiUrl
      ensures Valid() && apiUrl == ExchangeOptions[i].value
      ensures apiUrl in ChoiceValues(ExchangeOptions)
      ensures Phase() == old(Phase())
      ensures CanSubmit() <==> i != 0
    {
      OptionValues();
      SetApiUrl(ExchangeOptions[i].value);
    }

    /** The resolution selector's onChange. */
    method ChooseResolution(i: nat)
      requires Valid() && i < |ResolutionOptions|
      modifies this`paramResolution
      ensures Valid() && paramResolution == ResolutionOptions[i].value
      ensures paramResolution in ChoiceValues(ResolutionOptions)
      ensures Phase() == old(Phase())
    {
      SetResolution(ResolutionOptions[i].value);
    }

    /** The start of handleFetch: loading, old response and error cleared, URL built. */
    method BeginFetch() returns (url: string)
      requires Valid()
      modifies this`loading, this`error, this`responseData
      ensures Valid() && Phase() == Loading
      ensures loading && error == None && responseData == JNull
      ensures Inputs() == old(Inputs())
      ensures url == Query.FullUrl(Inputs())
    {
      loading := true;
      error := None;
      responseData := JNull;
      url := Query.BuildUrl(Inputs());
    }

    /** The try/catch/finally of handleFetch once fetch has settled with `r`. */
    method Complete(r: FetchResult)
      requires Valid() && loading
      modifies this`loading, this`error, this`responseData
      ensures Valid() && !loading && Inputs() == old(Inputs())
      ensures responseData == Settle(r).responseData && error == Settle(r).error
    {
      match r {
        case Rejected(message) =>
          error := Some(message);
        case Response(status, body) =>
          if !IsOk(status) {
            error := Some(HttpError(status));
          } else {
            match body {
              case Parsed(value) => responseData := value;
              case Malformed(message) => error := Some(message);
            }
          }
      }
      loading := false;
    }

    /** handleFetch from start to settlement, `network` standing for fetch. */
    method HandleFetch(network: string -> FetchResult) returns (url: string)
      requires Valid()
      modifies this`loading, this`error, this`responseData
      ensures Valid() && !loading && Inputs() == old(Inputs())
      ensures url == Query.FullUrl(Inputs())
      ensures responseData == Settle(network(url)).responseData
      ensures error == Settle(network(url)).error
    {
      url := BeginFetch();
      Complete(network(url));
    }

    /** Submitting the form: only an enabled Fetch button starts a request. */
    method Submit(network: string -> FetchResult) returns (sent: Option<string>)
      requires Valid()
      modifies this`loading, this`error, this`responseData
      ensures Valid() && Inputs() == old(Inputs())
      ensures sent.Some? <==> old(CanSubmit())
      ensures sent.None? ==> Phase() == old(Phase())
      ensures sent.Some? ==> sent.value == Query.FullUrl(Inputs())
      ensures sent.Some? ==> !loading
      ensures sent.Some? ==> responseData == Settle(network(sent.value)).responseData
      ensures sent.Some? ==> error == Settle(network(sent.value)).error
    {
      if CanSubmit() {
        var url := HandleFetch(network);
        sent := Some(url);
      } else {
        sent := None;
      }
    }
  }
}
