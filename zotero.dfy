/**
 * The remote API client (`internal/zotero`): its error type, one page of the
 * item listing (`Items`) and the pagination loop over all items
 * (`AllItems`). One HTTP round trip is an oracle from the requested
 * `(start, limit)` to a `Reply`; the body arrives already decoded or as a
 * read/decode failure.
 */
module Zotero {
  import opened Wrappers
  import opened Records
  import opened Decimal

  /** Page size of the pagination loop. */
  const MaxLimit: nat := 100
  const StatusOK: int := 200
  const TotalResultsHeader := "Total-Results"
  const LastModifiedHeader := "Last-Modified-Version"

  /** The error kinds: four sentinels and two structured kinds. */
  datatype Kind =
    | WrongURL
    | MakeReq
    | ReadBody
    | JSON
    | WrongStatus(expected: int, received: int)
    | ParseHeader(header: string)

  /** `zotero.Error`: a kind and an optional wrapped cause (its text). */
  datatype Error = Error(cause: Option<string>, kind: Kind)

  /**
   * The message of a kind, as its `Error()` method prints it: the status
   * kind reports what was received, every other kind what failed.
   */
  function KindText(k: Kind): (t: string)
    ensures k.WrongStatus? ==> |t| > 9 && t[..9] == "received "
    ensures !k.WrongStatus? ==> |t| > 10 && t[..10] == "failed to "
  {
    match k
    case WrongURL => "failed to create request"
    case MakeReq => "failed to execute request"
    case ReadBody => "failed to read response body"
    case JSON => "failed to parse data from JSON reply"
    case WrongStatus(expected, received) =>
      "received " + FormatInt(received) + " status code instead of " + FormatInt(expected)
    case ParseHeader(header) => "failed to parse header \"" + header + "\""
  }

  /** `Error.Error()`: the kind's message, followed by ": cause" when a cause is wrapped. */
  function ErrorText(e: Error): (s: string)
    ensures |s| >= |KindText(e.kind)| && s[..|KindText(e.kind)|] == KindText(e.kind)
    ensures e.cause.None? <==> s == KindText(e.kind)
  {
    match e.cause
    case None => KindText(e.kind)
    case Some(cause) => KindText(e.kind) + ": " + cause
  }

  /** The text `FormatInt` produces never contains a space. */
  lemma FormatIntNoSpace(i: int)
    ensures ' ' !in FormatInt(i)
  {
    var s := FormatInt(i);
    if i >= 0 {
      assert AllDigits(Format(i));
    } else {
      assert AllDigits(Format(-i));
      assert s == "-" + Format(-i);
      forall j | 0 <= j < |s| ensures s[j] != ' ' {
        if j > 0 { assert s[j] == Format(-i)[j - 1]; }
      }
    }
  }

  /** Signed formatting is injective. */
  lemma FormatIntInjective(a: int, b: int)
    requires a != b
    ensures FormatInt(a) != FormatInt(b)
  {
    if a < 0 && b < 0 {
      FormatInjective(-a, -b);
      assert FormatInt(a)[1..] == Format(-a);
      assert FormatInt(b)[1..] == Format(-b);
    } else if a >= 0 && b >= 0 {
      FormatInjective(a, b);
    } else if a >= 0 {
      assert FormatInt(a)[0] != '-';
    } else {
      assert FormatInt(b)[0] != '-';
    }
  }

  /** Two space-free words in the same frame give the same text only if they are equal. */
  lemma FramedWordsDiffer(p: string, a: string, m: string, b: string, q: string,
                          a': string, b': string)
    requires ' ' !in a && ' ' !in a' && |m| > 0 && m[0] == ' '
    requires a != a' || b != b'
    ensures p + a + m + b + q != p + a' + m + b' + q
  {
    var s, s' := p + a + m + b + q, p + a' + m + b' + q;
    if |a| == |a'| {
      if a != a' {
        var j :| 0 <= j < |a| && a[j] != a'[j];
        assert s[|p| + j] == a[j] && s'[|p| + j] == a'[j];
      } else {
        assert |s| != |s'| || s[|p| + |a| + |m|..|s| - |q|] != s'[|p| + |a| + |m|..|s'| - |q|];
      }
    } else if |a| < |a'| {
      assert s[|p| + |a|] == ' ';
      assert s'[|p| + |a|] == a'[|a|];
    } else {
      assert s'[|p| + |a'|] == ' ';
      assert s[|p| + |a'|] == a[|a'|];
    }
  }

  /** Distinct kinds print distinct messages, so a message identifies its kind. */
  lemma KindTextInjective(k: Kind, k': Kind)
    requires k != k'
    ensures KindText(k) != KindText(k')
  {
    var t, t' := KindText(k), KindText(k');
    if k.WrongStatus? && k'.WrongStatus? {
      FormatIntNoSpace(k.received);
      FormatIntNoSpace(k'.received);
      if k.received != k'.received {
        FormatIntInjective(k.received, k'.received);
      } else {
        FormatIntInjective(k.expected, k'.expected);
      }
      FramedWordsDiffer("received ", FormatInt(k.received), " status code instead of ",
                        FormatInt(k.expected), "", FormatInt(k'.received), FormatInt(k'.expected));
      assert t == "received " + FormatInt(k.received) + " status code instead of " + FormatInt(k.expected) + "";
      assert t' == "received " + FormatInt(k'.received) + " status code instead of " + FormatInt(k'.expected) + "";
    } else if k.ParseHeader? && k'.ParseHeader? {
      if |t| == |t'| {
        var j :| 0 <= j < |k.header| && k.header[j] != k'.header[j];
        assert t[24 + j] == k.header[j] && t'[24 + j] == k'.header[j];
      }
    } else if k.WrongStatus? || k'.WrongStatus? {
      assert t[0] != t'[0];
    } else {
      KindTextMark(k);
      KindTextMark(k');
    }
  }

  /** Characters 10 and 16 of the messages that start with "failed to ". */
  function Mark(k: Kind): (char, char)
    requires !k.WrongStatus?
  {
    match k
    case WrongURL => ('c', ' ')
    case MakeReq => ('e', 'e')
    case ReadBody => ('r', 'e')
    case JSON => ('p', 'd')
    case ParseHeader(_) => ('p', 'h')
  }

  lemma KindTextMark(k: Kind)
    requires !k.WrongStatus?
    ensures |KindText(k)| > 16 && (KindText(k)[10], KindText(k)[16]) == Mark(k)
  {
    match k {
      case WrongURL => assert KindText(k) == "failed to create request";
      case MakeReq => assert KindText(k) == "failed to execute request";
      case ReadBody => assert KindText(k) == "failed to read response body";
      case JSON => assert KindText(k) == "failed to parse data from JSON reply";
      case ParseHeader(h) =>
        assert KindText(k) == "failed to parse header \"" + h + "\"";
        assert KindText(k)[..17] == "failed to parse h";
    }
  }

  /** The response body: unreadable, not valid JSON, or the decoded records. */
  datatype Body = ReadFailure(cause: string) | Malformed(cause: string) | Decoded(items: seq<RemoteItem>)

  /** An HTTP response: status code, the two headers as text, and the body. */
  datatype Response = Response(status: int, totalResults: string, body: Body, lastModified: string)

  /** The outcome of one round trip: the request could not be built, it failed, or it was answered. */
  datatype Reply = BadRequest(cause: string) | RequestFailed(cause: string) | Answered(response: Response)

  /** The remote service: the reply to a listing request for `(start, limit)`. */
  type Server = (nat, nat) -> Reply

  /** The triple `(*ItemsResult, more, error)` that `Items` returns. */
  datatype Page = Page(result: Option<ItemsResult>, more: bool, err: Option<Error>)

  /** Whether a page starting at `start` of size `limit` leaves results behind, as the header states them. */
  predicate MoreThan(start: nat, limit: nat, totalResults: string)
  {
    ParseUint(totalResults).Some? && start + limit < ParseUint(totalResults).value
  }

  /**
   * `Items(start, limit)`: checks the status, then parses `Total-Results`,
   * then reads and decodes the body, then parses `Last-Modified-Version`;
   * the first failing check decides the error. `more` is known once the
   * total has been parsed and is returned with later errors too.
   */
  function Items(start: nat, limit: nat, reply: Reply): (p: Page)
    ensures p.err.None? <==> p.result.Some?
    ensures p.err.None? <==>
      reply.Answered? && reply.response.status == StatusOK
      && ParseUint(reply.response.totalResults).Some? && reply.response.body.Decoded?
      && ParseUint(reply.response.lastModified).Some?
    ensures p.more <==>
      reply.Answered? && reply.response.status == StatusOK && MoreThan(start, limit, reply.response.totalResults)
    ensures p.result.Some? ==>
      p.result.value == ItemsResult(reply.response.body.items, ParseUint(reply.response.lastModified).value)
    ensures reply.Answered? && reply.response.status == StatusOK && ParseUint(reply.response.totalResults).None? ==>
      p.err == Some(Error(Some(ParseUintError(reply.response.totalResults)), ParseHeader(TotalResultsHeader)))
    ensures (reply.Answered? && reply.response.status == StatusOK && ParseUint(reply.response.totalResults).Some?
             && reply.response.body.Decoded? && ParseUint(reply.response.lastModified).None?) ==>
      p.err == Some(Error(Some(ParseUintError(reply.response.lastModified)), ParseHeader(LastModifiedHeader)))
  {
    match reply
    case BadRequest(cause) => Page(None, false, Some(Error(Some(cause), WrongURL)))
    case RequestFailed(cause) => Page(None, false, Some(Error(Some(cause), MakeReq)))
    case Answered(resp) =>
      if resp.status != StatusOK then
        Page(None, false, Some(Error(None, WrongStatus(StatusOK, resp.status))))
      else
        match ParseUint(resp.totalResults)
        case None => Page(None, false, Some(Error(Some(ParseUintError(resp.totalResults)), ParseHeader(TotalResultsHeader))))
        case Some(totalItems) =>
          var more := start + limit < totalItems;
          match resp.body
          case ReadFailure(cause) => Page(None, more, Some(Error(Some(cause), ReadBody)))
          case Malformed(cause) => Page(None, more, Some(Error(Some(cause), JSON)))
          case Decoded(items) =>
            match ParseUint(resp.lastModified)
            case None => Page(None, more, Some(Error(Some(ParseUintError(resp.lastModified)), ParseHeader(LastModifiedHeader))))
            case Some(version) => Page(Some(ItemsResult(items, version)), more, None)
  }

  /** A non-200 status is reported as such, whatever the headers and the body hold. */
  lemma StatusCheckedFirst(start: nat, limit: nat, r: Response, r': Response)
    requires r.status != StatusOK && r'.status == r.status
    ensures Items(start, limit, Answered(r)) == Items(start, limit, Answered(r'))
    ensures Items(start, limit, Answered(r)).err == Some(Error(None, WrongStatus(StatusOK, r.status)))
  {
  }

  /** An unparsable total is reported before the body or the version header is looked at. */
  lemma TotalCheckedBeforeBody(start: nat, limit: nat, r: Response, r': Response)
    requires r.status == StatusOK && ParseUint(r.totalResults).None?
    requires r'.status == r.status && r'.totalResults == r.totalResults
    ensures Items(start, limit, Answered(r)) == Items(start, limit, Answered(r'))
    ensures Items(start, limit, Answered(r)).err.value.kind == ParseHeader(TotalResultsHeader)
  {
  }

  /** An unparsable version header is reported only once the body has been decoded. */
  lemma VersionCheckedAfterBody(start: nat, limit: nat, r: Response)
    requires r.status == StatusOK && ParseUint(r.totalResults).Some?
    ensures Items(start, limit, Answered(r)).err.Some?
              && Items(start, limit, Answered(r)).err.value.kind == ParseHeader(LastModifiedHeader)
            <==> r.body.Decoded? && ParseUint(r.lastModified).None?
  {
  }

  /** The page fetched by the `i`-th request of `AllItems`. */
  function PageAt(server: Server, i: nat): Page
  {
    Items(MaxLimit * i, MaxLimit, server(MaxLimit * i, MaxLimit))
  }

  /** The records of the first `n` pages, in order; all of them succeeded. */
  ghost function Fetched(server: Server, n: nat): seq<RemoteItem>
    requires forall i :: 0 <= i < n ==> PageAt(server, i).result.Some?
  {
    if n == 0 then [] else Fetched(server, n - 1) + PageAt(server, n - 1).result.value.items
  }

  /**
   * What `AllItems` promises of its results: it asked for pages at
   * `start = 0, 100, 200, …` (`requests`), every page but the last succeeded
   * and announced more, the last one failed or announced no more; the
   * records of the successful pages come in page order and the version is
   * that of the last successful page.
   */
  ghost predicate Paginated(server: Server, ir: ItemsResult, err: Option<Error>, requests: seq<nat>)
  {
    |requests| >= 1
    && (forall i :: 0 <= i < |requests| ==> requests[i] == MaxLimit * i)
    && (forall i :: 0 <= i < |requests| - 1 ==> PageAt(server, i).err.None? && PageAt(server, i).more)
    && err == PageAt(server, |requests| - 1).err
    && (err.None? ==> !PageAt(server, |requests| - 1).more)
    && var done := if err.None? then |requests| else |requests| - 1;
      ir.items == Fetched(server, done)
      && ir.version == (if done == 0 then 0 else PageAt(server, done - 1).result.value.version)
  }

  /**
   * `AllItems`: requests pages at `start = 0, 100, 200, …`, appends their
   * records in order and keeps the last page's version, until a page
   * reports that nothing is left or fails. On failure it returns the error
   * with what had been gathered before. `requests` lists the offsets asked for.
   */
  method AllItems(server: Server) returns (ir: ItemsResult, err: Option<Error>, ghost requests: seq<nat>)
    ensures Paginated(server, ir, err, requests)
  {
    ir := ItemsResult([], 0);
    err := None;
    requests := [];
    var start: nat := 0;
    while true
      invariant start == MaxLimit * |requests| && start < Uint64Bound
      invariant forall i :: 0 <= i < |requests| ==> requests[i] == MaxLimit * i
      invariant forall i :: 0 <= i < |requests| ==> PageAt(server, i).err.None? && PageAt(server, i).more
      invariant ir.items == Fetched(server, |requests|)
      invariant ir.version == (if |requests| == 0 then 0 else PageAt(server, |requests| - 1).result.value.version)
      decreases Uint64Bound - start
    {
      var page := Items(start, MaxLimit, server(start, MaxLimit));
      assert page == PageAt(server, |requests|);
      requests := requests + [start];
      if page.err.Some? {
        err := page.err;
        return;
      }
      ir := ir.(version := page.result.value.version);
      ir := ir.(items := ir.items + page.result.value.items);
      if !page.more {
        return;
      }
      start := start + MaxLimit;
    }
  }

  /** Ten records, standing for the reply body of the client's tests. */
  function TenRecords(): (rs: seq<RemoteItem>)
    ensures |rs| == 10
  {
    seq(10, _ => RemoteItem("item", 1, ItemData("", "", "", [], "", "", "")))
  }

  /** A service that always answers with ten records, the given total and version 42. */
  function FixedServer(total: nat): Server
  {
    (start: nat, limit: nat) => Answered(Response(StatusOK, Format(total), Decoded(TenRecords()), Format(42)))
  }

  /** The `more` rule on the two cases the client's tests use. */
  lemma MoreExamples()
    ensures !Items(0, MaxLimit, FixedServer(10)(0, MaxLimit)).more
    ensures Items(0, 10, FixedServer(100)(0, 10)).more
  {
    ParseFormat(10);
    ParseFormat(100);
  }

  /** With a total of 10, one request brings the ten records and version 42. */
  method SinglePageExample() returns (count: nat, version: nat, ghost requests: nat)
    ensures count == 10 && version == 42 && requests == 1
  {
    ParseFormat(10);
    ParseFormat(42);
    var ir, err, reqs := AllItems(FixedServer(10));
    assert PageAt(FixedServer(10), 0).err.None? && !PageAt(FixedServer(10), 0).more;
    count, version, requests := |ir.items|, ir.version, |reqs|;
  }

  /** With a total of 200, two requests bring twenty records. */
  method TwoPagesExample() returns (count: nat, version: nat, ghost requests: nat)
    ensures count == 20 && version == 42 && requests == 2
  {
    ParseFormat(200);
    ParseFormat(42);
    var server := FixedServer(200);
    var ir, err, reqs := AllItems(server);
    assert PageAt(server, 0).err.None? && PageAt(server, 0).more;
    assert PageAt(server, 1).err.None? && !PageAt(server, 1).more;
    assert Fetched(server, 2) == TenRecords() + TenRecords();
    count, version, requests := |ir.items|, ir.version, |reqs|;
  }
}
