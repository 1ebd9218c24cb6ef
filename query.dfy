/**
  The request target handleFetch builds from the form's five inputs: one
  "key=value" pair per non-empty input, in the order token, resolution,
  from, to, exchange, each value passed through encodeURIComponent; the pairs
  joined with '&' after the fixed endpoint, or, when there is no pair, the
  raw exchange value itself.
*/
module Query {
  import opened Wrappers
  import UriComponent

  /** The five request inputs of the form. */
  datatype Fields = Fields(token: string, resolution: string, from: string, to: string, exchange: string)

  /** One query parameter, its value not yet encoded. */
  datatype Param = Param(key: string, value: string)

  const Endpoint: string := "https://api.example.com?"

  /** The parameter names, in the order handleFetch tries them. */
  const Keys: seq<string> := ["token", "resolution", "from", "to", "exchange"]

  function Values(f: Fields): seq<string> {
    [f.token, f.resolution, f.from, f.to, f.exchange]
  }

  /** Some input is non-empty. */
  predicate HasInput(f: Fields) {
    exists k :: 0 <= k < 5 && Values(f)[k] != ""
  }

  /** Position of a parameter name in `Keys` (5 for any other name). */
  function Rank(key: string): nat {
    if key == "token" then 0
    else if key == "resolution" then 1
    else if key == "from" then 2
    else if key == "to" then 3
    else if key == "exchange" then 4
    else 5
  }

  /** The parameter of input `k`, when that input is non-empty. */
  function Optional(f: Fields, k: nat): seq<Param>
    requires k < 5
  {
    if Values(f)[k] != "" then [Param(Keys[k], Values(f)[k])] else []
  }

  /** The parameters of inputs `k` to 4, in order. */
  function From(f: Fields, k: nat): seq<Param>
    requires k <= 5
    decreases 5 - k
  {
    if k == 5 then [] else Optional(f, k) + From(f, k + 1)
  }

  /** The parameters handleFetch sends: those of the non-empty inputs, in key order. */
  function Present(f: Fields): seq<Param> {
    From(f, 0)
  }

  /** "key=value", the value percent-encoded. */
  function Pair(p: Param): string {
    p.key + "=" + UriComponent.Encode(p.value)
  }

  function Pairs(ps: seq<Param>): (r: seq<string>)
    ensures |r| == |ps|
  {
    seq(|ps|, i requires 0 <= i < |ps| => Pair(ps[i]))
  }

  /** Array.prototype.join: the strings with `sep` between neighbours. */
  function Join(xs: seq<string>, sep: char): string {
    if |xs| == 0 then "" else if |xs| == 1 then xs[0] else xs[0] + [sep] + Join(xs[1..], sep)
  }

  /** The URL handleFetch requests. */
  function FullUrl(f: Fields): string {
    var pairs := Pairs(Present(f));
    if |pairs| > 0 then Endpoint + Join(pairs, '&') else f.exchange
  }

  /** One line of handleFetch: push "key=encodeURIComponent(value)" when the value is non-empty. */
  method PushIfPresent(queryParams: seq<string>, key: string, value: string) returns (r: seq<string>)
    ensures value == "" ==> r == queryParams
    ensures value != "" ==> r == queryParams + [key + "=" + UriComponent.Encode(value)]
  {
    r := queryParams;
    if value != "" {
      var encoded := UriComponent.EncodeUriComponent(value);
      r := r + [key + "=" + encoded];
    }
  }

  /** handleFetch's construction of the URL: a list grown by one push per non-empty input. */
  method BuildUrl(f: Fields) returns (url: string)
    ensures url == FullUrl(f)
  {
    var queryParams: seq<string> := [];
    PushStep(f, 0, queryParams);
    queryParams := PushIfPresent(queryParams, "token", f.token);
    PushStep(f, 1, queryParams);
    queryParams := PushIfPresent(queryParams, "resolution", f.resolution);
    PushStep(f, 2, queryParams);
    queryParams := PushIfPresent(queryParams, "from", f.from);
    PushStep(f, 3, queryParams);
    queryParams := PushIfPresent(queryParams, "to", f.to);
    PushStep(f, 4, queryParams);
    queryParams := PushIfPresent(queryParams, "exchange", f.exchange);
    UptoAll(f);
    url := if |queryParams| > 0 then Endpoint + Join(queryParams, '&') else f.exchange;
  }

  /** The parameters of inputs 0 to `k` - 1: what handleFetch has pushed after `k` steps. */
  ghost function Upto(f: Fields, k: nat): seq<Param>
    requires k <= 5
  {
    if k == 0 then [] else Upto(f, k - 1) + Optional(f, k - 1)
  }

  /** One step of BuildUrl keeps the pushed strings equal to the pairs of the inputs seen. */
  lemma PushStep(f: Fields, k: nat, pushed: seq<string>)
    requires k < 5 && pushed == Pairs(Upto(f, k))
    ensures Values(f)[k] == "" ==> pushed == Pairs(Upto(f, k + 1))
    ensures Values(f)[k] != "" ==>
      pushed + [Keys[k] + "=" + UriComponent.Encode(Values(f)[k])] == Pairs(Upto(f, k + 1))
  {
    if Values(f)[k] != "" {
      PairsAppend(Upto(f, k), Param(Keys[k], Values(f)[k]));
    } else {
      assert Upto(f, k + 1) == Upto(f, k);
    }
  }

  lemma UptoAll(f: Fields)
    ensures Upto(f, 5) == Present(f)
  {
    assert From(f, 4) == Optional(f, 4);
    assert From(f, 3) == Optional(f, 3) + From(f, 4);
    assert From(f, 2) == Optional(f, 2) + From(f, 3);
    assert From(f, 1) == Optional(f, 1) + From(f, 2);
    assert From(f, 0) == Optional(f, 0) + From(f, 1);
    assert Upto(f, 1) == Optional(f, 0);
    assert Upto(f, 2) == Optional(f, 0) + Optional(f, 1);
    assert Upto(f, 3) == (Optional(f, 0) + Optional(f, 1)) + Optional(f, 2);
    assert Upto(f, 4) == ((Optional(f, 0) + Optional(f, 1)) + Optional(f, 2)) + Optional(f, 3);
    calc {
      Upto(f, 5);
      (((Optional(f, 0) + Optional(f, 1)) + Optional(f, 2)) + Optional(f, 3)) + Optional(f, 4);
      Optional(f, 0) + (Optional(f, 1) + (Optional(f, 2) + (Optional(f, 3) + Optional(f, 4))));
      From(f, 0);
    }
  }

  lemma PairsAppend(ps: seq<Param>, p: Param)
    ensures Pairs(ps + [p]) == Pairs(ps) + [Pair(p)]
  {
  }

  // ---------------------------------------------------------------------
  // Which parameters are sent, and in what order.

  predicate Ordered(ps: seq<Param>) {
    forall i, j :: 0 <= i < j < |ps| ==> Rank(ps[i].key) < Rank(ps[j].key)
  }

  lemma {:induction false} FromMembers(f: Fields, k: nat, p: Param)
    requires k <= 5
    ensures p in From(f, k) <==> exists j :: k <= j < 5 && Values(f)[j] != "" && p == Param(Keys[j], Values(f)[j])
    decreases 5 - k
  {
    if k < 5 {
      FromMembers(f, k + 1, p);
    }
  }

  lemma {:induction false} FromOrdered(f: Fields, k: nat)
    requires k <= 5
    ensures Ordered(From(f, k))
    ensures forall p :: p in From(f, k) ==> k <= Rank(p.key) < 5
    decreases 5 - k
  {
    if k < 5 {
      FromOrdered(f, k + 1);
      forall p | p in From(f, k) ensures k <= Rank(p.key) < 5 {
        FromMembers(f, k, p);
      }
      var s := From(f, k);
      var rest := From(f, k + 1);
      if Values(f)[k] != "" {
        assert s == [Param(Keys[k], Values(f)[k])] + rest;
        forall i, j | 0 <= i < j < |s| ensures Rank(s[i].key) < Rank(s[j].key) {
          assert s[j] == rest[j - 1] && s[j] in rest;
          if i > 0 { assert s[i] == rest[i - 1]; }
        }
      } else {
        assert s == rest;
      }
    }
  }

  /** Input `k`'s parameter is sent, with value `v`, exactly when that input is the non-empty `v`. */
  lemma PresentAt(f: Fields, k: nat, v: string)
    requires k < 5
    ensures Param(Keys[k], v) in Present(f) <==> Values(f)[k] != "" && v == Values(f)[k]
  {
    FromMembers(f, 0, Param(Keys[k], v));
    if Param(Keys[k], v) in Present(f) {
      var j :| 0 <= j < 5 && Values(f)[j] != "" && Param(Keys[k], v) == Param(Keys[j], Values(f)[j]);
      assert Rank(Keys[k]) == k && Rank(Keys[j]) == j;
    }
  }

  /**
    Each input contributes its own parameter exactly when it is non-empty, and
    the parameters come in the order token, resolution, from, to, exchange
    (so no name is sent twice).
  */
  lemma PresentSpec(f: Fields)
    ensures forall k :: 0 <= k < 5 ==> (Values(f)[k] != "" <==> Param(Keys[k], Values(f)[k]) in Present(f))
    ensures forall p :: p in Present(f) ==> exists k :: 0 <= k < 5 && Values(f)[k] != "" && p == Param(Keys[k], Values(f)[k])
    ensures Ordered(Present(f))
  {
    forall k | 0 <= k < 5
      ensures Values(f)[k] != "" <==> Param(Keys[k], Values(f)[k]) in Present(f)
    {
      PresentAt(f, k, Values(f)[k]);
    }
    forall p | p in Present(f)
      ensures exists k :: 0 <= k < 5 && Values(f)[k] != "" && p == Param(Keys[k], Values(f)[k])
    {
      FromMembers(f, 0, p);
    }
    FromOrdered(f, 0);
  }

  /** The inputs can be read back from the parameters sent. */
  lemma PresentInjective(f: Fields, g: Fields)
    requires Present(f) == Present(g)
    ensures f == g
  {
    forall k | 0 <= k < 5 ensures Values(f)[k] == Values(g)[k] {
      PresentAt(f, k, Values(f)[k]);
      PresentAt(g, k, Values(f)[k]);
      PresentAt(f, k, Values(g)[k]);
      PresentAt(g, k, Values(g)[k]);
    }
    assert Values(f) == Values(g);
  }

  lemma {:induction false} FromEmpty(f: Fields, k: nat)
    requires k <= 5
    ensures From(f, k) == [] <==> forall j :: k <= j < 5 ==> Values(f)[j] == ""
    decreases 5 - k
  {
    if k < 5 {
      FromEmpty(f, k + 1);
    }
  }

  /**
    The URL is the endpoint followed by the joined pairs exactly when some
    input is non-empty; otherwise it is the exchange value, which is then "".
  */
  lemma FullUrlShape(f: Fields)
    ensures HasInput(f) <==> |Pairs(Present(f))| > 0
    ensures HasInput(f) ==> FullUrl(f) == Endpoint + Join(Pairs(Present(f)), '&')
    ensures !HasInput(f) ==> FullUrl(f) == f.exchange == ""
    ensures HasInput(f) <==> |FullUrl(f)| >= |Endpoint| && FullUrl(f)[..|Endpoint|] == Endpoint
  {
    FromEmpty(f, 0);
  }

  lemma {:induction false} JoinEndsWithLast(xs: seq<string>, sep: char)
    requires |xs| > 0
    ensures var j, x := Join(xs, sep), xs[|xs| - 1]; |j| >= |x| && j[|j| - |x|..] == x
  {
    if |xs| > 1 {
      JoinEndsWithLast(xs[1..], sep);
      var rest := Join(xs[1..], sep);
      var j := Join(xs, sep);
      var x := xs[|xs| - 1];
      assert j == (xs[0] + [sep]) + rest;
      assert j[|j| - |x|..] == rest[|rest| - |x|..];
    }
  }

  lemma {:induction false} FromEndsWithExchange(f: Fields, k: nat)
    requires k < 5 && f.exchange != ""
    ensures |From(f, k)| > 0 && From(f, k)[|From(f, k)| - 1] == Param("exchange", f.exchange)
    decreases 5 - k
  {
    if k < 4 {
      FromEndsWithExchange(f, k + 1);
    } else {
      assert From(f, 4) == [Param("exchange", f.exchange)] + [];
    }
  }

  /** A non-empty exchange is always the last parameter, so the URL ends with its pair. */
  lemma EndsWithExchange(f: Fields)
    requires f.exchange != ""
    ensures var url, tail := FullUrl(f), "exchange=" + UriComponent.Encode(f.exchange);
      |url| >= |tail| && url[|url| - |tail|..] == tail
  {
    var ps := Present(f);
    FromEndsWithExchange(f, 0);
    var pairs := Pairs(ps);
    var tail := "exchange=" + UriComponent.Encode(f.exchange);
    assert pairs[|pairs| - 1] == tail;
    JoinEndsWithLast(pairs, '&');
    var j := Join(pairs, '&');
    var url := FullUrl(f);
    assert url == Endpoint + j;
    assert url[|url| - |tail|..] == j[|j| - |tail|..];
  }

  // ---------------------------------------------------------------------
  // Reading the query back: split on '&', then on the first '=', then
  // percent-decode the value.

  function Split(s: string, sep: char): (parts: seq<string>)
    ensures |parts| >= 1
  {
    if s == [] then [[]]
    else
      var rest := Split(s[1..], sep);
      if s[0] == sep then [[]] + rest else [[s[0]] + rest[0]] + rest[1..]
  }

  /** The text before the first `sep` and the text after it ("" when there is none). */
  function SplitAt(s: string, sep: char): (string, string) {
    if s == [] then ([], [])
    else if s[0] == sep then ([], s[1..])
    else
      var (k, v) := SplitAt(s[1..], sep);
      ([s[0]] + k, v)
  }

  function ParseParams(parts: seq<string>): Option<seq<Param>> {
    if parts == [] then Some([])
    else
      var (key, encoded) := SplitAt(parts[0], '=');
      match UriComponent.Decode(encoded)
      case None => None
      case Some(value) =>
        match ParseParams(parts[1..])
        case None => None
        case Some(rest) => Some([Param(key, value)] + rest)
  }

  /** The parameters of a URL on the endpoint; None for any other URL or a malformed escape. */
  function ParseUrl(url: string): Option<seq<Param>> {
    if |url| >= |Endpoint| && url[..|Endpoint|] == Endpoint
    then ParseParams(Split(url[|Endpoint|..], '&'))
    else None
  }

  lemma {:induction false} SplitPrefix(a: string, t: string, sep: char)
    requires sep !in a
    ensures Split(a + t, sep) == [a + Split(t, sep)[0]] + Split(t, sep)[1..]
  {
    if a == [] {
      assert a + t == t;
      var parts := Split(t, sep);
      assert a + parts[0] == parts[0];
      assert parts == [parts[0]] + parts[1..];
    } else {
      assert (a + t)[1..] == a[1..] + t;
      SplitPrefix(a[1..], t, sep);
      assert [a[0]] + (a[1..] + Split(t, sep)[0]) == a + Split(t, sep)[0];
    }
  }

  lemma {:induction false} SplitJoin(xs: seq<string>, sep: char)
    requires |xs| >= 1
    requires forall i :: 0 <= i < |xs| ==> sep !in xs[i]
    ensures Split(Join(xs, sep), sep) == xs
  {
    if |xs| == 1 {
      SplitPrefix(xs[0], [], sep);
      assert xs[0] + [] == xs[0];
    } else {
      var rest := Join(xs[1..], sep);
      assert Join(xs, sep) == xs[0] + ([sep] + rest);
      SplitPrefix(xs[0], [sep] + rest, sep);
      assert ([sep] + rest)[1..] == rest;
      SplitJoin(xs[1..], sep);
      assert xs[0] + [] == xs[0];
      assert [xs[0]] + xs[1..] == xs;
    }
  }

  lemma {:induction false} SplitAtFirst(k: string, v: string, sep: char)
    requires sep !in k
    ensures SplitAt(k + [sep] + v, sep) == (k, v)
  {
    if k == [] {
      assert k + [sep] + v == [sep] + v;
    } else {
      assert (k + [sep] + v)[1..] == k[1..] + [sep] + v;
      SplitAtFirst(k[1..], v, sep);
      assert [k[0]] + k[1..] == k;
    }
  }

  lemma {:induction false} ParsePairs(ps: seq<Param>)
    requires forall p :: p in ps ==> '=' !in p.key
    ensures ParseParams(Pairs(ps)) == Some(ps)
  {
    if ps != [] {
      var p := ps[0];
      SplitAtFirst(p.key, UriComponent.Encode(p.value), '=');
      assert Pair(p) == p.key + ['='] + UriComponent.Encode(p.value);
      UriComponent.DecodeEncode(p.value);
      assert Pairs(ps)[1..] == Pairs(ps[1..]);
      ParsePairs(ps[1..]);
      assert [p] + ps[1..] == ps;
    }
  }

  lemma KeyPlain(j: nat)
    requires j < 5
    ensures '&' !in Keys[j] && '=' !in Keys[j]
  {
    if j == 0 {
      assert Keys[j] == "token";
    } else if j == 1 {
      assert Keys[j] == "resolution";
    } else if j == 2 {
      assert Keys[j] == "from";
    } else if j == 3 {
      assert Keys[j] == "to";
    } else {
      assert Keys[j] == "exchange";
    }
  }

  lemma PresentKeysPlain(f: Fields)
    ensures forall p :: p in Present(f) ==> '&' !in p.key && '=' !in p.key
  {
    forall p | p in Present(f) ensures '&' !in p.key && '=' !in p.key {
      FromMembers(f, 0, p);
      var j :| 0 <= j < 5 && Values(f)[j] != "" && p == Param(Keys[j], Values(f)[j]);
      KeyPlain(j);
    }
  }

  lemma PairsHaveNoAmpersand(ps: seq<Param>)
    requires forall p :: p in ps ==> '&' !in p.key
    ensures forall i :: 0 <= i < |Pairs(ps)| ==> '&' !in Pairs(ps)[i]
  {
    forall i | 0 <= i < |Pairs(ps)| ensures '&' !in Pairs(ps)[i] {
      var p := ps[i];
      UriComponent.EncodeHasNoDelimiters(p.value);
      assert p in ps;
      assert Pairs(ps)[i] == p.key + "=" + UriComponent.Encode(p.value);
    }
  }

  /** Reading the URL back yields exactly the non-empty inputs, in order, with their raw values. */
  lemma ParseFullUrl(f: Fields)
    requires HasInput(f)
    ensures ParseUrl(FullUrl(f)) == Some(Present(f))
  {
    FullUrlShape(f);
    var ps := Present(f);
    PresentKeysPlain(f);
    PairsHaveNoAmpersand(ps);
    var url := FullUrl(f);
    assert url[|Endpoint|..] == Join(Pairs(ps), '&');
    SplitJoin(Pairs(ps), '&');
    ParsePairs(ps);
  }

  /** Different inputs never produce the same URL. */
  lemma FullUrlInjective(f: Fields, g: Fields)
    requires FullUrl(f) == FullUrl(g)
    ensures f == g
  {
    FullUrlShape(f);
    FullUrlShape(g);
    if HasInput(f) {
      ParseFullUrl(f);
      ParseFullUrl(g);
      PresentInjective(f, g);
    } else {
      assert Values(f) == Values(g);
    }
  }
}
