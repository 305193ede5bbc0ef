/**
 * The request side of the gate: the approval request payload, the parsing of
 * the comma-delimited `approvers` input, and the checks applied to the replies
 * of the two remote endpoints (create a request, read its status).
 */
module Approvals {
  import opened Common
  import opened JsText

  /** The run identity and the two inputs the payload is built from. */
  datatype RunContext = RunContext(
    repoId: int,
    runId: int,
    runAttempt: int,
    runNumber: int,
    message: string,
    approvers: string)

  /** The JSON body posted to create an approval request. */
  datatype Payload = Payload(
    artifactId: int,
    verificationToken: string,
    repoId: int,
    workflowRunId: int,
    workflowRunAttempt: int,
    workflowRunNumber: int,
    approvers: Option<seq<string>>,
    message: string)

  /** An HTTP reply, reduced to its status code and the one JSON field the caller wants. */
  datatype Response = Response(statusCode: int, field: Option<string>)

  /** What an HTTP call produced: a reply, or a thrown error (network failure). */
  datatype Exchange = Delivered(response: Response) | Unreachable

  /** Why a submission or a status poll threw. */
  datatype ApiError =
    | StagingFailed
    | TransportFailed
    | BadStatus(code: int)
    | MissingId
    | MissingStatus

  /** Every piece trimmed, in place. */
  function TrimEach(xs: seq<string>): (r: seq<string>)
    ensures |r| == |xs|
    ensures forall i :: 0 <= i < |xs| ==> r[i] == Trim(xs[i])
  {
    if xs == [] then [] else [Trim(xs[0])] + TrimEach(xs[1..])
  }

  /** `filter(Boolean)` on strings: the empty strings dropped, everything else kept in order. */
  function DropEmpty(xs: seq<string>): (r: seq<string>)
    ensures |r| <= |xs|
    ensures forall i :: 0 <= i < |r| ==> r[i] != [] && r[i] in xs
    ensures multiset(r) == multiset(xs)[[] := 0]
  {
    if xs == [] then []
    else
      var rest := DropEmpty(xs[1..]);
      assert xs == [xs[0]] + xs[1..];
      if xs[0] == [] then rest else [xs[0]] + rest
  }

  /** The `approvers` input split on commas, each piece trimmed, empty pieces dropped. */
  function ParseApprovers(input: string): (r: seq<string>)
    ensures |r| <= Count(input, ',') + 1
    ensures forall i :: 0 <= i < |r| ==> r[i] != [] && IsTrimmed(r[i])
    ensures var pieces := TrimEach(Split(input, ',')); multiset(r) == multiset(pieces)[[] := 0]
  {
    DropEmpty(TrimEach(Split(input, ',')))
  }

  /** Every parsed approver is its own trim. */
  lemma ApproversAreTrimmed(input: string)
    ensures forall a :: a in ParseApprovers(input) ==> Trim(a) == a
  {
    forall a | a in ParseApprovers(input) ensures Trim(a) == a {
      TrimmedIsFixed(a);
    }
  }

  /** Trimming piece by piece commutes with concatenation: the order of the pieces is kept. */
  lemma TrimEachAppend(xs: seq<string>, ys: seq<string>)
    ensures TrimEach(xs + ys) == TrimEach(xs) + TrimEach(ys)
  {
    var l, r := TrimEach(xs + ys), TrimEach(xs) + TrimEach(ys);
    forall i | 0 <= i < |l| ensures l[i] == r[i] {
      if i < |xs| { assert (xs + ys)[i] == xs[i]; } else { assert (xs + ys)[i] == ys[i - |xs|]; }
    }
  }

  /** `filter(Boolean)` commutes with concatenation: it keeps the order of what it keeps. */
  lemma {:induction false} DropEmptyAppend(xs: seq<string>, ys: seq<string>)
    ensures DropEmpty(xs + ys) == DropEmpty(xs) + DropEmpty(ys)
  {
    if xs != [] {
      assert (xs + ys)[0] == xs[0] && (xs + ys)[1..] == xs[1..] + ys;
      DropEmptyAppend(xs[1..], ys);
    } else {
      assert xs + ys == ys;
    }
  }

  /** One piece survives `filter(Boolean)` exactly when it is not empty. */
  lemma DropEmptySingle(x: string)
    ensures DropEmpty([x]) == if x == [] then [] else [x]
  {
    assert [x][1..] == [];
  }

  /**
   * The approvers of an input cut at one of its commas are the approvers of the
   * text before the comma followed by those of the text after it, for any input.
   */
  lemma ApproversAtComma(a: string, b: string)
    ensures ParseApprovers(a + [','] + b) == ParseApprovers(a) + ParseApprovers(b)
  {
    SplitAtSeparator(a, ',', b);
    TrimEachAppend(Split(a, ','), Split(b, ','));
    DropEmptyAppend(TrimEach(Split(a, ',')), TrimEach(Split(b, ',')));
  }

  /** Text without a comma gives its trim as the one approver, or none when it is blank. */
  lemma ApproversOfPiece(x: string)
    requires ',' !in x
    ensures ParseApprovers(x) == if AllWhitespace(x) then [] else [Trim(x)]
  {
    SplitOfPlain(x, ',');
    assert TrimEach([x]) == [Trim(x)];
    DropEmptySingle(Trim(x));
  }

  /**
   * Any comma-free pieces joined with commas: the approvers are the trimmed
   * pieces in their order, empty ones dropped, duplicates kept.
   */
  lemma ApproversOfPieces(xs: seq<string>)
    requires |xs| >= 1
    requires forall i :: 0 <= i < |xs| ==> ',' !in xs[i]
    ensures ParseApprovers(JoinWith(xs, ',')) == DropEmpty(TrimEach(xs))
  {
    SplitOfJoin(xs, ',');
  }

  /** Joining non-empty, trimmed, comma-free names with commas and parsing them back gives the names. */
  lemma ApproversOfJoined(names: seq<string>)
    requires |names| >= 1
    requires forall i :: 0 <= i < |names| ==> names[i] != [] && IsTrimmed(names[i]) && ',' !in names[i]
    ensures ParseApprovers(JoinWith(names, ',')) == names
  {
    ApproversOfPieces(names);
    TrimEachKeepsTrimmed(names);
    DropEmptyKeepsNonEmpty(names);
  }

  lemma {:induction false} TrimEachKeepsTrimmed(xs: seq<string>)
    requires forall i :: 0 <= i < |xs| ==> IsTrimmed(xs[i])
    ensures TrimEach(xs) == xs
  {
    if xs != [] {
      TrimmedIsFixed(xs[0]);
      TrimEachKeepsTrimmed(xs[1..]);
      assert [xs[0]] + xs[1..] == xs;
    }
  }

  lemma {:induction false} DropEmptyKeepsNonEmpty(xs: seq<string>)
    requires forall i :: 0 <= i < |xs| ==> xs[i] != []
    ensures DropEmpty(xs) == xs
  {
    if xs != [] {
      DropEmptyKeepsNonEmpty(xs[1..]);
      assert [xs[0]] + xs[1..] == xs;
    }
  }

  /** A sample input with blanks around names and an empty piece. */
  lemma ApproversExample()
    ensures ParseApprovers("alice, bob ,,carol") == ["alice", "bob", "carol"]
  {
    ExampleSplit();
    ExampleTrim();
    ExampleDrop();
  }

  lemma ExampleSplit()
    ensures Split("alice, bob ,,carol", ',') == ["alice", " bob ", "", "carol"]
  {
    var pieces := ["alice", " bob ", "", "carol"];
    assert JoinWith(pieces, ',') == "alice, bob ,,carol" by {
      assert JoinWith(pieces[3..], ',') == "carol";
      assert JoinWith(pieces[2..], ',') == ",carol";
      assert JoinWith(pieces[1..], ',') == " bob ,,carol";
    }
    SplitOfJoin(pieces, ',');
  }

  lemma ExampleTrim()
    ensures TrimEach(["alice", " bob ", "", "carol"]) == ["alice", "bob", "", "carol"]
  {
    ExampleTrimBob();
    TrimmedIsFixed("alice");
    TrimmedIsFixed("carol");
  }

  lemma ExampleTrimBob()
    ensures Trim(" bob ") == "bob"
  {
    TrimOfPadded(" ", "bob", " ");
    assert " " + "bob" + " " == " bob ";
  }

  lemma ExampleDrop()
    ensures DropEmpty(["alice", "bob", "", "carol"]) == ["alice", "bob", "carol"]
  {
    var trimmed := ["alice", "bob", "", "carol"];
    assert DropEmpty(trimmed[3..]) == ["carol"];
    assert DropEmpty(trimmed[2..]) == ["carol"];
    assert DropEmpty(trimmed[1..]) == ["bob", "carol"];
  }

  /**
   * `getApprovalPayload`: the run identity, the staged artifact's id, the token
   * and the message copied as given; `approvers` present exactly when its input
   * is non-empty, and then the parsed list (possibly empty).
   */
  function BuildPayload(ctx: RunContext, artifactId: int, token: string): (p: Payload)
    ensures p.artifactId == artifactId && p.verificationToken == token && p.message == ctx.message
    ensures p.repoId == ctx.repoId && p.workflowRunId == ctx.runId
    ensures p.workflowRunAttempt == ctx.runAttempt && p.workflowRunNumber == ctx.runNumber
    ensures p.approvers.None? <==> ctx.approvers == []
    ensures p.approvers.Some? ==> p.approvers.value == ParseApprovers(ctx.approvers)
  {
    var base := Payload(artifactId, token, ctx.repoId, ctx.runId, ctx.runAttempt, ctx.runNumber, None, ctx.message);
    if ctx.approvers != [] then base.(approvers := Some(ParseApprovers(ctx.approvers))) else base
  }

  /** An input of blanks and commas is non-empty, so `approvers` is present but empty. */
  lemma BlankApproversGiveEmptyList(ctx: RunContext, artifactId: int, token: string)
    requires ctx.approvers == " , "
    ensures BuildPayload(ctx, artifactId, token).approvers == Some([])
  {
    var pieces := [" ", " "];
    assert Split(" , ", ',') == pieces by {
      SplitOfJoin(pieces, ',');
      assert JoinWith(pieces, ',') == " , ";
    }
    assert Trim(" ") == [];
    assert TrimEach(pieces) == [[], []];
  }

  /** The common tail of both endpoint calls: status 200 first, then a non-empty field. */
  function CheckReply(resp: Response, missing: ApiError): (r: Result<string, ApiError>)
    ensures r.Ok? <==> resp.statusCode == 200 && resp.field.Some? && resp.field.value != []
    ensures r.Ok? ==> resp.field == Some(r.value)
    ensures resp.statusCode != 200 ==> r == Err(BadStatus(resp.statusCode))
    ensures resp.statusCode == 200 && !r.Ok? ==> r == Err(missing)
  {
    if resp.statusCode != 200 then Err(BadStatus(resp.statusCode))
    else if resp.field.None? || resp.field.value == [] then Err(missing)
    else Ok(resp.field.value)
  }

  /** The outcome of `requestApproval`: the request that was posted, if any, and the approval id or the error thrown. */
  datatype Submission = Submission(request: Option<Payload>, id: Result<string, ApiError>)

  /**
   * `requestApproval`, with the verification token, the staged artifact's id
   * (`None` when staging threw) and the reply to the POST given as inputs.
   * It returns a non-empty id exactly when the reply is a 200 carrying one.
   */
  function RequestApproval(ctx: RunContext, token: string, staged: Option<int>, reply: Exchange): (s: Submission)
    ensures staged.None? ==> s.request == None && s.id == Err(StagingFailed)
    ensures staged.Some? ==> s.request == Some(BuildPayload(ctx, staged.value, token))
    ensures s.id.Ok? <==> staged.Some? && reply.Delivered? && reply.response.statusCode == 200
                          && reply.response.field.Some? && reply.response.field.value != []
    ensures s.id.Ok? ==> s.id.value != [] && reply.response.field == Some(s.id.value)
    ensures staged.Some? && reply.Unreachable? ==> s.id == Err(TransportFailed)
    ensures staged.Some? && reply.Delivered? && reply.response.statusCode != 200 ==> s.id == Err(BadStatus(reply.response.statusCode))
    ensures staged.Some? && reply.Delivered? && reply.response.statusCode == 200 && !s.id.Ok? ==> s.id == Err(MissingId)
  {
    match staged
    case None => Submission(None, Err(StagingFailed))
    case Some(artifactId) =>
      var request := BuildPayload(ctx, artifactId, token);
      match reply
      case Unreachable => Submission(Some(request), Err(TransportFailed))
      case Delivered(resp) => Submission(Some(request), CheckReply(resp, MissingId))
  }

  /**
   * `getApprovalStatus`, with the reply to the GET given as input: a non-empty
   * status exactly when the reply is a 200 carrying one, otherwise the error thrown.
   */
  function GetApprovalStatus(reply: Exchange): (r: Result<string, ApiError>)
    ensures r.Ok? <==> reply.Delivered? && reply.response.statusCode == 200
                       && reply.response.field.Some? && reply.response.field.value != []
    ensures r.Ok? ==> r.value != [] && reply.response.field == Some(r.value)
    ensures reply.Unreachable? ==> r == Err(TransportFailed)
    ensures reply.Delivered? && reply.response.statusCode != 200 ==> r == Err(BadStatus(reply.response.statusCode))
    ensures reply.Delivered? && reply.response.statusCode == 200 && !r.Ok? ==> r == Err(MissingStatus)
  {
    match reply
    case Unreachable => Err(TransportFailed)
    case Delivered(resp) => CheckReply(resp, MissingStatus)
  }
}
