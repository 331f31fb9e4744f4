/** The `limit` / `offset` query parameters and the LIMIT/OFFSET window of the listing handlers. */
module Paging {
  import opened Outcomes

  /** An integer query or path parameter as the request carries it: not given, not a number
      (strconv.Atoi fails), or a number. */
  datatype IntParam = Absent | Malformed | Value(n: int)

  const DefaultLimit: int := 5
  const DefaultOffset: int := 0

  /** `limit` with its default of 5; a non-number or a value <= 0 is a bad request. */
  function ReadLimit(p: IntParam): (r: Result<int>)
    ensures r.Ok? ==> r.value > 0
    ensures r.Err? ==> r.error == InvalidArgument
    ensures r.Err? <==> p.Malformed? || (p.Value? && p.n <= 0)
    ensures p.Absent? ==> r == Ok(DefaultLimit)
    ensures p.Value? && p.n > 0 ==> r == Ok(p.n)
  {
    match p
    case Absent => Ok(DefaultLimit)
    case Malformed => Err(InvalidArgument)
    case Value(n) => if n <= 0 then Err(InvalidArgument) else Ok(n)
  }

  /** `offset` with its default of 0; a non-number or a negative value is a bad request. */
  function ReadOffset(p: IntParam): (r: Result<int>)
    ensures r.Ok? ==> r.value >= 0
    ensures r.Err? ==> r.error == InvalidArgument
    ensures r.Err? <==> p.Malformed? || (p.Value? && p.n < 0)
    ensures p.Absent? ==> r == Ok(DefaultOffset)
    ensures p.Value? && p.n >= 0 ==> r == Ok(p.n)
  {
    match p
    case Absent => Ok(DefaultOffset)
    case Malformed => Err(InvalidArgument)
    case Value(n) => if n < 0 then Err(InvalidArgument) else Ok(n)
  }

  /** Both pagination parameters, checked limit first. */
  function ReadWindow(limit: IntParam, offset: IntParam): (r: Result<(int, int)>)
    ensures r.Ok? <==> ReadLimit(limit).Ok? && ReadOffset(offset).Ok?
    ensures r.Ok? ==> r.value.0 > 0 && r.value.1 >= 0
    ensures r.Ok? ==> r.value == (ReadLimit(limit).value, ReadOffset(offset).value)
    ensures r.Err? ==> r.error == InvalidArgument
  {
    match ReadLimit(limit)
    case Err(e) => Err(e)
    case Ok(l) =>
      match ReadOffset(offset)
      case Err(e) => Err(e)
      case Ok(o) => Ok((l, o))
  }

  /** The `version` path parameter of the rollback handlers: a positive number, else a bad request. */
  function ReadVersion(p: IntParam): (r: Result<int>)
    ensures r.Ok? <==> p.Value? && p.n > 0
    ensures r.Ok? ==> r.value == p.n
    ensures r.Err? ==> r.error == InvalidArgument
  {
    if p.Value? && p.n > 0 then Ok(p.n) else Err(InvalidArgument)
  }

  /** LIMIT `limit` OFFSET `offset` over rows already in query order. */
  function Page<T>(s: seq<T>, limit: int, offset: int): (r: seq<T>)
    requires limit > 0 && offset >= 0
    ensures |r| <= limit
    ensures forall k :: 0 <= k < |r| ==> offset + k < |s| && r[k] == s[offset + k]
    ensures offset + limit <= |s| ==> |r| == limit
    ensures offset <= |s| ==> |r| >= |s| - offset || |r| == limit
  {
    if offset >= |s| then []
    else if offset + limit >= |s| then s[offset..]
    else s[offset..offset + limit]
  }
}
