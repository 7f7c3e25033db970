/** The bar-chart page's `response` listener and its `captured` flag, fed a
    sequence of synthetic responses in arrival order.

    The flag is raised before the body is parsed, so the first response whose
    URL contains the quotes endpoint consumes the single capture whether or
    not its body parses and normalises. A failed first capture saves
    nothing, and every later matching response is still ignored. */
module Capture {
  import opened Wrappers
  import opened JsValues
  import opened Normaliser

  const QuotesEndpoint: string := "/core-api/v1/quotes/get"

  /** One completed response: its URL and the outcome of `response.json()`
      (`None` when the body is not valid JSON). */
  datatype Response = Response(url: string, body: Option<JsValue>)

  /** The listener's two states. `Captured(saved)` holds the records written
      to the target's file, or `None` when parsing or normalising threw and
      the error was only logged. */
  datatype CaptureState = Awaiting | Captured(saved: Option<seq<CanonicalRecord>>)

  ghost predicate OccursAt(s: string, t: string, i: int) {
    0 <= i && i + |t| <= |s| && s[i..i + |t|] == t
  }

  /** `s.includes(t)`: some position of `s` starts a copy of `t`. */
  function Contains(s: string, t: string): (r: bool)
    ensures r <==> exists i :: OccursAt(s, t, i)
    decreases |s|
  {
    if |s| < |t| then
      assert forall i :: !OccursAt(s, t, i);
      false
    else if s[..|t|] == t then
      assert OccursAt(s, t, 0);
      true
    else
      OccursShift(s, t);
      Contains(s[1..], t)
  }

  /** An occurrence other than at 0 is an occurrence in the tail. */
  lemma OccursShift(s: string, t: string)
    requires |s| > 0 && !OccursAt(s, t, 0)
    ensures (exists i :: OccursAt(s, t, i)) <==> (exists i :: OccursAt(s[1..], t, i))
  {
    if exists i :: OccursAt(s, t, i) {
      var i :| OccursAt(s, t, i);
      assert s[1..][i - 1..i - 1 + |t|] == s[i..i + |t|];
      assert OccursAt(s[1..], t, i - 1);
    }
    if exists i :: OccursAt(s[1..], t, i) {
      var i :| OccursAt(s[1..], t, i);
      assert s[1..][i..i + |t|] == s[i + 1..i + 1 + |t|];
      assert OccursAt(s, t, i + 1);
    }
  }

  /** The URL test of the listener (line 41's first conjunct). */
  predicate Qualifies(resp: Response) {
    Contains(resp.url, QuotesEndpoint)
  }

  /** What the handler saves once it has claimed a response. */
  function HandleBody(body: Option<JsValue>): Option<seq<CanonicalRecord>> {
    match body
    case None => None
    case Some(json) => NormalisePayload(json)
  }

  /** One listener call. */
  function OnResponse(st: CaptureState, resp: Response): CaptureState {
    if Qualifies(resp) && st.Awaiting? then Captured(HandleBody(resp.body)) else st
  }

  /** The listener applied to each response in arrival order. */
  function Observe(st: CaptureState, rs: seq<Response>): CaptureState
    decreases |rs|
  {
    if |rs| == 0 then st else Observe(OnResponse(st, rs[0]), rs[1..])
  }

  /** Index `i` holds the first response whose URL qualifies. */
  ghost predicate IsFirstQualifying(rs: seq<Response>, i: int) {
    0 <= i < |rs| && Qualifies(rs[i]) && forall j :: 0 <= j < i ==> !Qualifies(rs[j])
  }

  /** Once captured, the state never changes again: later matching
      responses are ignored even when the capture saved nothing. */
  lemma {:induction false} CapturedIsFinal(st: CaptureState, rs: seq<Response>)
    requires st.Captured?
    ensures Observe(st, rs) == st
    decreases |rs|
  {
    if |rs| > 0 {
      CapturedIsFinal(OnResponse(st, rs[0]), rs[1..]);
    }
  }

  /** Capture never happens without a qualifying response. */
  lemma {:induction false} StaysAwaiting(rs: seq<Response>)
    requires forall j :: 0 <= j < |rs| ==> !Qualifies(rs[j])
    ensures Observe(Awaiting, rs) == Awaiting
    decreases |rs|
  {
    if |rs| > 0 {
      StaysAwaiting(rs[1..]);
    }
  }

  /** The state after a run of responses is decided by the first qualifying
      one alone: it is captured with that response's handling outcome. */
  lemma {:induction false} FirstMatchWins(rs: seq<Response>, i: int)
    requires IsFirstQualifying(rs, i)
    ensures Observe(Awaiting, rs) == Captured(HandleBody(rs[i].body))
    decreases |rs|
  {
    if i == 0 {
      CapturedIsFinal(Captured(HandleBody(rs[0].body)), rs[1..]);
    } else {
      assert !Qualifies(rs[0]);
      assert IsFirstQualifying(rs[1..], i - 1);
      FirstMatchWins(rs[1..], i - 1);
    }
  }

  /** The listener stays `Awaiting` exactly when no response qualifies. */
  lemma {:induction false} AwaitingIff(rs: seq<Response>)
    ensures Observe(Awaiting, rs).Awaiting? <==> forall j :: 0 <= j < |rs| ==> !Qualifies(rs[j])
  {
    if forall j :: 0 <= j < |rs| ==> !Qualifies(rs[j]) {
      StaysAwaiting(rs);
    } else {
      var i := FirstQualifyingIndex(rs);
      FirstMatchWins(rs, i);
    }
  }

  /** Some qualifying response has a first one. */
  lemma FirstQualifyingIndex(rs: seq<Response>) returns (i: int)
    requires exists j :: 0 <= j < |rs| && Qualifies(rs[j])
    ensures IsFirstQualifying(rs, i)
  {
    i := 0;
    while !Qualifies(rs[i])
      invariant 0 <= i < |rs|
      invariant forall j :: 0 <= j < i ==> !Qualifies(rs[j])
      invariant exists j :: i <= j < |rs| && Qualifies(rs[j])
      decreases |rs| - i
    {
      i := i + 1;
    }
  }

  /** The listener as the page runs it: a mutable `captured` flag tested and
      raised before the body is handled. `handled` lists the indices whose
      body was handled: there is at most one, the first qualifying response,
      and its handling outcome (a failed parse included) is final. */
  method DispatchResponses(rs: seq<Response>) returns (captured: bool, handled: seq<nat>)
    ensures |handled| <= 1
    ensures captured <==> exists j :: 0 <= j < |rs| && Qualifies(rs[j])
    ensures captured ==> |handled| == 1 && IsFirstQualifying(rs, handled[0])
    ensures !captured ==> handled == []
    ensures captured ==> Observe(Awaiting, rs) == Captured(HandleBody(rs[handled[0]].body))
    ensures !captured ==> Observe(Awaiting, rs) == Awaiting
  {
    captured := false;
    handled := [];
    var k := 0;
    while k < |rs|
      invariant 0 <= k <= |rs|
      invariant captured <==> exists j :: 0 <= j < k && Qualifies(rs[j])
      invariant !captured ==> handled == []
      invariant captured ==> |handled| == 1 && IsFirstQualifying(rs, handled[0]) && handled[0] < k
    {
      if Qualifies(rs[k]) && !captured {
        captured := true;
        handled := handled + [k];
      }
      k := k + 1;
    }
    if captured {
      FirstMatchWins(rs, handled[0]);
    } else {
      StaysAwaiting(rs);
    }
  }
}
