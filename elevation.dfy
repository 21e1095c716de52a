/**
 * `check_elevation` in sel_scanner.py: the access levels ACC, 2AC and CAL
 * are tried in that order with their factory passwords. Each level starts
 * pending; a level whose reply contains the prompt marker succeeds, and the
 * first level whose reply lacks it fails, marks every later level skipped
 * and ends the attempts. In test mode every level succeeds and nothing is
 * sent. The replies of the relay are an input (`responses[i]` is what the
 * read after the `i`-th password returns; a read past the end returns "").
 */
module Elevation {
  import opened Text

  datatype Status = Pending | Success | Failed | Skipped

  datatype Credential = Credential(role: string, password: string)

  /** The roles and passwords tried, in order. */
  const Ladder: seq<Credential> := [Credential("ACC", "OTTER"), Credential("2AC", "TAIL"), Credential("CAL", "CLARKE")]

  /** The text a reply must contain for the level to count as reached. */
  const Marker := "TRNSFRMR"

  function Roles(creds: seq<Credential>): (roles: seq<string>)
    ensures |roles| == |creds|
    ensures forall i :: 0 <= i < |creds| ==> roles[i] == creds[i].role
  {
    seq(|creds|, i requires 0 <= i < |creds| => creds[i].role)
  }

  predicate DistinctRoles(creds: seq<Credential>) {
    forall i, j :: 0 <= i < j < |creds| ==> creds[i].role != creds[j].role
  }

  /** The status dictionary before any attempt: every role pending. */
  function Initial(creds: seq<Credential>): (status: map<string, Status>)
    ensures status.Keys == set i | 0 <= i < |creds| :: creds[i].role
    ensures forall r :: r in status ==> status[r] == Pending
  {
    map r | r in Roles(creds) :: Pending
  }

  /** The reply read after the `i`-th password. */
  function Response(responses: seq<string>, i: nat): string {
    if i < |responses| then responses[i] else ""
  }

  /** `"TRNSFRMR" in resp` for the reply read after the `i`-th password. */
  predicate Reached(responses: seq<string>, i: nat) {
    Contains(Response(responses, i), Marker)
  }

  /** The index of the first role whose reply lacks the marker, or `|creds|` when every reply has it. */
  function FirstFailure(creds: seq<Credential>, responses: seq<string>, from: nat := 0): (f: nat)
    requires from <= |creds|
    ensures from <= f <= |creds|
    ensures forall i :: from <= i < f ==> Reached(responses, i)
    ensures f < |creds| ==> !Reached(responses, f)
    decreases |creds| - from
  {
    if from == |creds| || !Reached(responses, from) then from
    else FirstFailure(creds, responses, from + 1)
  }

  /** The status of the role at index `i` when the first failure is at `f`. */
  function StatusAt(i: nat, f: nat): Status {
    if i < f then Success else if i == f then Failed else Skipped
  }

  /** How many roles were tried: all up to and including the first failure. */
  function Attempted(f: nat, n: nat): nat {
    if f < n then f + 1 else n
  }

  /** The lines written for the first `n` roles: the lower-cased role, then the password. */
  function Transcript(creds: seq<Credential>, n: nat): seq<string>
    requires n <= |creds|
  {
    if n == 0 then []
    else Transcript(creds, n - 1) + [Lower(creds[n - 1].role) + "\r\n", creds[n - 1].password + "\r\n"]
  }

  /**
   * `check_elevation(ip)`: the final status of every role, and the lines
   * written to the relay.
   */
  method CheckElevation(testMode: bool, responses: seq<string>) returns (status: map<string, Status>, sent: seq<string>)
    ensures status.Keys == set i | 0 <= i < |Ladder| :: Ladder[i].role
    ensures testMode ==> sent == [] && forall i :: 0 <= i < |Ladder| ==> status[Ladder[i].role] == Success
    ensures !testMode ==>
              var f := FirstFailure(Ladder, responses);
              && sent == Transcript(Ladder, Attempted(f, |Ladder|))
              && forall i :: 0 <= i < |Ladder| ==> status[Ladder[i].role] == StatusAt(i, f)
  {
    LadderDistinct();
    status, sent := RunLadder(Ladder, testMode, responses);
  }

  lemma LadderDistinct()
    ensures DistinctRoles(Ladder)
  {
  }

  /** The body of `check_elevation` over any list of roles with distinct names. */
  method RunLadder(creds: seq<Credential>, testMode: bool, responses: seq<string>)
    returns (status: map<string, Status>, sent: seq<string>)
    requires DistinctRoles(creds)
    ensures status.Keys == set i | 0 <= i < |creds| :: creds[i].role
    ensures testMode ==> sent == [] && forall i :: 0 <= i < |creds| ==> status[creds[i].role] == Success
    ensures !testMode ==>
              var f := FirstFailure(creds, responses);
              && sent == Transcript(creds, Attempted(f, |creds|))
              && forall i :: 0 <= i < |creds| ==> status[creds[i].role] == StatusAt(i, f)
  {
    status := Initial(creds);
    sent := [];
    if testMode {
      status := MarkAllSuccess(creds, status);
    } else {
      status, sent := Climb(creds, status, responses);
    }
  }

  /** The live part: try each role in turn until the first reply without the marker. */
  method Climb(creds: seq<Credential>, status0: map<string, Status>, responses: seq<string>)
    returns (status: map<string, Status>, sent: seq<string>)
    requires DistinctRoles(creds)
    requires status0.Keys == set i | 0 <= i < |creds| :: creds[i].role
    ensures status.Keys == status0.Keys
    ensures var f := FirstFailure(creds, responses);
            && sent == Transcript(creds, Attempted(f, |creds|))
            && forall i :: 0 <= i < |creds| ==> status[creds[i].role] == StatusAt(i, f)
  {
    var f;
    status, sent, f := TryRoles(creds, status0, responses);
    if f < |creds| {
      status := SkipLater(creds, status, f);
    }
  }

  /**
   * The roles tried up to the loop's `break`: every reply before `f` has the
   * marker, `f` is the first failure or the ladder's length, the roles before
   * `f` succeeded and every role from `f` on is as it was.
   */
  method TryRoles(creds: seq<Credential>, status0: map<string, Status>, responses: seq<string>)
    returns (status: map<string, Status>, sent: seq<string>, f: nat)
    requires DistinctRoles(creds)
    requires status0.Keys == set i | 0 <= i < |creds| :: creds[i].role
    ensures f == FirstFailure(creds, responses)
    ensures status == Marked(creds, status0, f)
    ensures status.Keys == status0.Keys
    ensures forall i :: 0 <= i < f ==> status[creds[i].role] == Success
    ensures forall i :: f <= i < |creds| ==> status[creds[i].role] == status0[creds[i].role]
    ensures sent == Transcript(creds, Attempted(f, |creds|))
  {
    status, sent, f := AttemptRoles(creds, status0, responses);
    MarkedFrame(creds, status0, f);
  }

  /** The `for` loop itself: send each role's lines and stop at the first reply without the marker. */
  method AttemptRoles(creds: seq<Credential>, status0: map<string, Status>, responses: seq<string>)
    returns (status: map<string, Status>, sent: seq<string>, f: nat)
    ensures f == FirstFailure(creds, responses)
    ensures status == Marked(creds, status0, f)
    ensures sent == Transcript(creds, Attempted(f, |creds|))
  {
    status := status0;
    sent := [];
    f := 0;
    while f < |creds|
      invariant 0 <= f <= |creds|
      invariant FirstFailure(creds, responses, f) == FirstFailure(creds, responses)
      invariant status == Marked(creds, status0, f)
      invariant sent == Transcript(creds, f)
    {
      sent := Send(creds, sent, f);
      if !Reached(responses, f) {
        break;
      }
      status := status[creds[f].role := Success];
      f := f + 1;
    }
    assert FirstFailure(creds, responses, f) == f;
  }

  /** `status0` after the replies to the roles below `n` had the marker: those roles set to success. */
  function Marked(creds: seq<Credential>, status0: map<string, Status>, n: nat): map<string, Status>
    requires n <= |creds|
  {
    if n == 0 then status0 else Marked(creds, status0, n - 1)[creds[n - 1].role := Success]
  }

  /** Marking the first `n` roles sets exactly those to success and leaves every other role as it was. */
  lemma {:induction false} MarkedFrame(creds: seq<Credential>, status0: map<string, Status>, n: nat)
    requires DistinctRoles(creds) && n <= |creds|
    requires status0.Keys == set i | 0 <= i < |creds| :: creds[i].role
    ensures Marked(creds, status0, n).Keys == status0.Keys
    ensures forall i :: 0 <= i < n ==> Marked(creds, status0, n)[creds[i].role] == Success
    ensures forall i :: n <= i < |creds| ==> Marked(creds, status0, n)[creds[i].role] == status0[creds[i].role]
  {
    if n > 0 {
      MarkedFrame(creds, status0, n - 1);
      assert creds[n - 1].role in status0.Keys;
    }
  }

  /** `writer.write(name.lower() + "\r\n")`, then `writer.write(pwd + "\r\n")`, for the role at `idx`. */
  method Send(creds: seq<Credential>, sent0: seq<string>, idx: nat) returns (sent: seq<string>)
    requires idx < |creds| && sent0 == Transcript(creds, idx)
    ensures sent == Transcript(creds, idx + 1)
  {
    var name, pwd := creds[idx].role, creds[idx].password;
    TranscriptNext(creds, idx);
    sent := sent0 + [Lower(name) + "\r\n"];
    sent := sent + [pwd + "\r\n"];
  }

  /** One more role tried is two more lines written. */
  lemma TranscriptNext(creds: seq<Credential>, n: nat)
    requires n < |creds|
    ensures Transcript(creds, n + 1)
         == Transcript(creds, n) + [Lower(creds[n].role) + "\r\n"] + [creds[n].password + "\r\n"]
  {
  }

  /** Test mode: `status[n] = "success"` for every role. */
  method MarkAllSuccess(creds: seq<Credential>, status0: map<string, Status>) returns (status: map<string, Status>)
    requires DistinctRoles(creds)
    requires status0.Keys == set i | 0 <= i < |creds| :: creds[i].role
    ensures status.Keys == status0.Keys
    ensures forall i :: 0 <= i < |creds| ==> status[creds[i].role] == Success
  {
    status := status0;
    var n := 0;
    while n < |creds|
      invariant 0 <= n <= |creds|
      invariant status.Keys == status0.Keys
      invariant forall i :: 0 <= i < n ==> status[creds[i].role] == Success
    {
      status := status[creds[n].role := Success];
      n := n + 1;
    }
  }

  /**
   * The failure at `idx`: `status[name] = "failed"`, then `status[later] = "skipped"`
   * for every later role.
   */
  method SkipLater(creds: seq<Credential>, status0: map<string, Status>, idx: nat) returns (status: map<string, Status>)
    requires DistinctRoles(creds) && idx < |creds|
    requires status0.Keys == set i | 0 <= i < |creds| :: creds[i].role
    requires forall i :: 0 <= i < idx ==> status0[creds[i].role] == Success
    ensures status.Keys == status0.Keys
    ensures forall i :: 0 <= i < |creds| ==> status[creds[i].role] == StatusAt(i, idx)
  {
    assert creds[idx].role in status0.Keys;
    status := status0[creds[idx].role := Failed];
    var later := idx + 1;
    while later < |creds|
      invariant idx < later <= |creds|
      invariant status.Keys == status0.Keys
      invariant forall i :: 0 <= i < later ==> status[creds[i].role] == StatusAt(i, idx)
    {
      status := status[creds[later].role := Skipped];
      later := later + 1;
    }
  }

  // ---------------------------------------------------------------------------
  // What the ladder guarantees

  /** The first failure is the one index with every earlier reply reached and its own not. */
  lemma {:induction false} FirstFailureAt(creds: seq<Credential>, responses: seq<string>, k: nat, from: nat := 0)
    requires from <= k <= |creds|
    requires forall i :: from <= i < k ==> Reached(responses, i)
    requires k < |creds| ==> !Reached(responses, k)
    ensures FirstFailure(creds, responses, from) == k
    decreases k - from
  {
    if from < k {
      FirstFailureAt(creds, responses, k, from + 1);
    }
  }

  /**
   * After a live run no role is pending: a run of successes, at most one
   * failure, and only skipped roles after it.
   */
  lemma StatusShape(n: nat, f: nat)
    ensures forall i :: 0 <= i < n ==> StatusAt(i, f) != Pending
    ensures forall i, j :: 0 <= i < j < n && StatusAt(j, f) == Success ==> StatusAt(i, f) == Success
    ensures forall i, j :: 0 <= i < n && 0 <= j < n && StatusAt(i, f) == Failed && StatusAt(j, f) == Failed ==> i == j
    ensures forall i, j :: 0 <= i < j < n && StatusAt(i, f) != Success ==> StatusAt(j, f) == Skipped
  {
  }

  /**
   * A tried role succeeds exactly when its reply contains the marker and
   * fails otherwise; a role that was not tried is skipped.
   */
  lemma SuccessIffMarker(creds: seq<Credential>, responses: seq<string>, i: nat)
    requires i < |creds|
    ensures var f := FirstFailure(creds, responses);
            && (i < Attempted(f, |creds|) ==> (StatusAt(i, f) == Success <==> Reached(responses, i)))
            && (i < Attempted(f, |creds|) ==> (StatusAt(i, f) == Failed <==> !Reached(responses, i)))
            && (i >= Attempted(f, |creds|) ==> StatusAt(i, f) == Skipped)
  {
  }

  /** The transcript alternates the lower-cased role and the password, role by role in ladder order. */
  lemma {:induction false} TranscriptAt(creds: seq<Credential>, n: nat)
    requires n <= |creds|
    ensures |Transcript(creds, n)| == 2 * n
    ensures forall k :: 0 <= k < n ==>
              && Transcript(creds, n)[2 * k] == Lower(creds[k].role) + "\r\n"
              && Transcript(creds, n)[2 * k + 1] == creds[k].password + "\r\n"
  {
    if n > 0 {
      TranscriptAt(creds, n - 1);
    }
  }

  /** Nothing is written after the failing role's password. */
  lemma StopsAtFailure(creds: seq<Credential>, responses: seq<string>)
    requires FirstFailure(creds, responses) < |creds|
    ensures var f := FirstFailure(creds, responses);
            var t := Transcript(creds, Attempted(f, |creds|));
            |t| == 2 * (f + 1) && t[|t| - 1] == creds[f].password + "\r\n"
  {
    var f := FirstFailure(creds, responses);
    TranscriptAt(creds, f + 1);
  }

  lemma LowerRoles()
    ensures Lower("ACC") == "acc" && Lower("2AC") == "2ac"
  {
    assert Lower("ACC")[0] == 'a' && Lower("ACC")[1] == 'c' && Lower("ACC")[2] == 'c';
    assert Lower("2AC")[0] == '2' && Lower("2AC")[1] == 'a' && Lower("2AC")[2] == 'c';
  }

  /**
   * The scenario where ACC's reply has the marker and 2AC's does not:
   * ACC succeeds, 2AC fails, CAL is skipped, and the last line written is TAIL.
   */
  lemma AccOnly(r0: string, r1: string, rest: seq<string>)
    requires Contains(r0, Marker) && !Contains(r1, Marker)
    ensures var f := FirstFailure(Ladder, [r0, r1] + rest);
            && StatusAt(0, f) == Success && StatusAt(1, f) == Failed && StatusAt(2, f) == Skipped
            && Transcript(Ladder, Attempted(f, |Ladder|)) == ["acc\r\n", "OTTER\r\n", "2ac\r\n", "TAIL\r\n"]
  {
    var responses := [r0, r1] + rest;
    assert Response(responses, 0) == r0 && Response(responses, 1) == r1;
    FirstFailureAt(Ladder, responses, 1);
    LowerRoles();
    assert Ladder[0] == Credential("ACC", "OTTER") && Ladder[1] == Credential("2AC", "TAIL");
    assert "acc" + "\r\n" == "acc\r\n" && "OTTER" + "\r\n" == "OTTER\r\n";
    assert "2ac" + "\r\n" == "2ac\r\n" && "TAIL" + "\r\n" == "TAIL\r\n";
    assert Transcript(Ladder, 0) == [];
    assert Transcript(Ladder, 1) == ["acc\r\n", "OTTER\r\n"];
    assert Transcript(Ladder, 2) == ["acc\r\n", "OTTER\r\n", "2ac\r\n", "TAIL\r\n"];
  }
}
