/**
 * The list-query parser (internal/controllers/http/parser/tenders.go):
 * `limit` and `offset` with their defaults, and the `service_type` filter
 * checked against the three known service types.
 *
 * A query string is taken already split into keys and their values, as the
 * standard URL query parser returns it; `None` stands for a query string
 * that parser refuses. Every key present carries at least one value.
 */
module QueryParser {
  import opened Wrappers

  type Values = vs: seq<string> | |vs| > 0 witness [""]
  type Query = map<string, Values>

  datatype ParseError =
    | MalformedQuery
    | NotAnInteger(key: string)
    | NegativeValue(key: string, value: int)
    | InvalidServiceType(service: string)

  /** The range of the platform `int` the decimal parser produces. */
  const MinInt: int := -0x8000_0000_0000_0000
  const MaxInt: int := 0x7fff_ffff_ffff_ffff

  const DefaultLimit: int := 5
  const DefaultOffset: int := 0

  /** The service types a tender may be filtered by. */
  const ServiceTypes: seq<string> := ["Construction", "Delivery", "Manufacture"]

  // ---------------------------------------------------------------------
  // Decimal integers
  // ---------------------------------------------------------------------

  predicate IsDigit(c: char) {
    '0' <= c <= '9'
  }

  predicate AllDigits(s: string) {
    forall i :: 0 <= i < |s| ==> IsDigit(s[i])
  }

  /** The value of a string of decimal digits, most significant first. */
  function DigitsValue(ds: string): (v: nat)
    requires AllDigits(ds)
    ensures |ds| == 0 ==> v == 0
  {
    if |ds| == 0 then 0
    else 10 * DigitsValue(ds[..|ds| - 1]) + (ds[|ds| - 1] as int - '0' as int)
  }

  /**
   * The standard decimal conversion to `int`: an optional `+` or `-`, then
   * one or more decimal digits and nothing else, with a value inside the
   * 64-bit range. Leading zeros are accepted; spaces, underscores and an
   * empty string are not.
   */
  function Atoi(s: string): (r: Option<int>)
    ensures r.Some? ==> MinInt <= r.value <= MaxInt
    ensures r.Some? ==> |s| > 0
    ensures r.Some? && r.value < 0 ==> s[0] == '-'
    ensures r.Some? ==>
      var digits := if s[0] == '-' || s[0] == '+' then s[1..] else s;
      && |digits| > 0 && AllDigits(digits)
      && r.value == (if s[0] == '-' then -(DigitsValue(digits) as int) else DigitsValue(digits) as int)
    ensures r.None? && |s| > 0 ==>
      var digits := if s[0] == '-' || s[0] == '+' then s[1..] else s;
      |digits| == 0 || !AllDigits(digits)
      || !(MinInt <= (if s[0] == '-' then -(DigitsValue(digits) as int) else DigitsValue(digits) as int) <= MaxInt)
  {
    if |s| == 0 then None
    else
      var digits := if s[0] == '-' || s[0] == '+' then s[1..] else s;
      if |digits| == 0 || !AllDigits(digits) then None
      else
        var v: int := if s[0] == '-' then -(DigitsValue(digits) as int) else DigitsValue(digits);
        if v < MinInt || v > MaxInt then None else Some(v)
  }

  function DigitChar(d: nat): (c: char)
    requires d < 10
    ensures IsDigit(c) && c as int - '0' as int == d
  {
    ('0' as int + d) as char
  }

  /** The shortest decimal spelling of `n`. */
  function Decimal(n: nat): (s: string)
    ensures |s| > 0 && AllDigits(s)
  {
    if n < 10 then [DigitChar(n)] else Decimal(n / 10) + [DigitChar(n % 10)]
  }

  lemma {:induction false} DecimalValue(n: nat)
    ensures DigitsValue(Decimal(n)) == n
  {
    if n >= 10 {
      var s := Decimal(n);
      assert s[..|s| - 1] == Decimal(n / 10);
      DecimalValue(n / 10);
    }
  }

  /** Every non-negative `int` survives being written out and parsed back. */
  lemma AtoiDecimal(n: nat)
    requires n <= MaxInt
    ensures Atoi(Decimal(n)) == Some(n)
  {
    DecimalValue(n);
  }

  /** The same with an explicit `+`. */
  lemma AtoiPlusDecimal(n: nat)
    requires n <= MaxInt
    ensures Atoi("+" + Decimal(n)) == Some(n)
  {
    DecimalValue(n);
    assert ("+" + Decimal(n))[1..] == Decimal(n);
  }

  /** Every negative `int` survives being written out with a `-` and parsed back. */
  lemma AtoiNegativeDecimal(n: nat)
    requires 0 < n <= -MinInt
    ensures Atoi("-" + Decimal(n)) == Some(-(n as int))
  {
    DecimalValue(n);
    assert ("-" + Decimal(n))[1..] == Decimal(n);
  }

  // ---------------------------------------------------------------------
  // limit and offset
  // ---------------------------------------------------------------------

  /** Of a repeated key, only the last value is read. */
  function Last(vs: Values): string {
    vs[|vs| - 1]
  }

  /**
   * One of `limit` and `offset`: absent means `default`; present, its last
   * value must be a decimal integer and not negative.
   */
  function ParseNonNegative(q: Query, key: string, default: int): (r: Result<int, ParseError>)
    ensures key !in q ==> r == Ok(default)
    ensures key in q && r.Ok? ==> Atoi(Last(q[key])) == Some(r.value) && r.value >= 0
    ensures key in q && r.Err? ==>
      || (Atoi(Last(q[key])).None? && r == Err(NotAnInteger(key)))
      || (Atoi(Last(q[key])).Some? && Atoi(Last(q[key])).value < 0
          && r == Err(NegativeValue(key, Atoi(Last(q[key])).value)))
  {
    if key !in q then Ok(default)
    else
      match Atoi(Last(q[key]))
      case None => Err(NotAnInteger(key))
      case Some(v) => if v < 0 then Err(NegativeValue(key, v)) else Ok(v)
  }

  /**
   * `limit` (default 5) and `offset` (default 0). An unparsable query comes
   * first, then a bad `limit`, then a bad `offset`; on success neither is
   * negative.
   */
  function ParseLimitOffset(q: Option<Query>): (r: Result<(int, int), ParseError>)
    ensures q.None? ==> r == Err(MalformedQuery)
    ensures r.Ok? ==> r.value.0 >= 0 && r.value.1 >= 0
    ensures q.Some? ==>
      var limit := ParseNonNegative(q.value, "limit", DefaultLimit);
      var offset := ParseNonNegative(q.value, "offset", DefaultOffset);
      && (limit.Err? ==> r == Err(limit.error))
      && (limit.Ok? && offset.Err? ==> r == Err(offset.error))
      && (limit.Ok? && offset.Ok? ==> r == Ok((limit.value, offset.value)))
  {
    match q
    case None => Err(MalformedQuery)
    case Some(values) =>
      match ParseNonNegative(values, "limit", DefaultLimit)
      case Err(e) => Err(e)
      case Ok(limit) =>
        match ParseNonNegative(values, "offset", DefaultOffset)
        case Err(e) => Err(e)
        case Ok(offset) => Ok((limit, offset))
  }

  /** Only the last of repeated `limit` or `offset` values decides the outcome. */
  lemma LastValueDecides(q: Query, key: string, vs: Values, ws: Values, default: int)
    requires Last(vs) == Last(ws)
    ensures ParseNonNegative(q[key := vs], key, default) == ParseNonNegative(q[key := ws], key, default)
  {
  }

  // ---------------------------------------------------------------------
  // service_type
  // ---------------------------------------------------------------------

  /** The first requested service type that is not a known one, if any. */
  function FirstInvalid(services: seq<string>): (r: Option<string>)
    ensures r.None? <==> forall i :: 0 <= i < |services| ==> services[i] in ServiceTypes
    ensures r.Some? ==> exists i :: (0 <= i < |services| && services[i] == r.value
      && r.value !in ServiceTypes && forall k :: 0 <= k < i ==> services[k] in ServiceTypes)
  {
    if |services| == 0 then None
    else if services[0] !in ServiceTypes then Some(services[0])
    else
      var rest := FirstInvalid(services[1..]);
      assert rest.Some? ==> exists i :: (0 < i < |services| && services[i] == rest.value
        && rest.value !in ServiceTypes && forall k :: 0 <= k < i ==> services[k] in ServiceTypes) by {
        if rest.Some? {
          var j :| (0 <= j < |services[1..]| && services[1..][j] == rest.value
            && rest.value !in ServiceTypes && forall k :: 0 <= k < j ==> services[1..][k] in ServiceTypes);
          assert forall k :: 0 <= k < j + 1 ==> services[k] in ServiceTypes by {
            forall k | 0 <= k < j + 1 ensures services[k] in ServiceTypes {
              if k > 0 { assert services[k] == services[1..][k - 1]; }
            }
          }
        }
      }
      rest
  }

  /**
   * `limit`, `offset` and the service types to list. Their errors come
   * first; an absent `service_type` means all three known types; otherwise
   * every requested value must be a known type and the values are returned
   * as given, repeats and order kept.
   */
  function ParseLimitOffsetService(q: Option<Query>): (r: Result<(int, int, seq<string>), ParseError>)
    ensures ParseLimitOffset(q).Err? ==> r == Err(ParseLimitOffset(q).error)
    ensures r.Ok? ==> ParseLimitOffset(q) == Ok((r.value.0, r.value.1))
    ensures r.Ok? ==> |r.value.2| > 0 && forall i :: 0 <= i < |r.value.2| ==> r.value.2[i] in ServiceTypes
    ensures ParseLimitOffset(q).Ok? ==>
      && (q.Some? && "service_type" !in q.value ==> r.Ok? && r.value.2 == ServiceTypes)
      && (q.Some? && "service_type" in q.value ==>
            var services := q.value["service_type"];
            && (r.Ok? <==> forall i :: 0 <= i < |services| ==> services[i] in ServiceTypes)
            && (r.Ok? ==> r.value.2 == services)
            && (r.Err? ==> exists i :: 0 <= i < |services| && r == Err(InvalidServiceType(services[i]))
                                       && services[i] !in ServiceTypes))
  {
    match ParseLimitOffset(q)
    case Err(e) => Err(e)
    case Ok((limit, offset)) =>
      if "service_type" !in q.value then Ok((limit, offset, ServiceTypes))
      else
        var services := q.value["service_type"];
        match FirstInvalid(services)
        case Some(service) => Err(InvalidServiceType(service))
        case None => Ok((limit, offset, services))
  }
}
