/** `validate_onchain_submit_response`: when a block manager's answer counts as success, and what is
    reported when it does not. */
module Submit {
  import opened Wrappers
  import opened Lists
  import opened Text
  import opened Json
  import opened ExitCodes
  import opened Redaction

  /** What the failure message is about; its wording is left out. */
  datatype Cause =
    | Rejected(exit: Option<ExitCode>, action: Option<ExitCode>)
    | ExitFailed(code: ExitCode)
    | ActionFailed(code: ExitCode)
    | Aborted(exit: Option<ExitCode>, action: Option<ExitCode>)

  datatype SubmitFailure = SubmitFailure(cause: Cause, payload: Json)

  function First(codes: seq<ExitCode>): (r: Option<ExitCode>) {
    FirstThat(codes, true)
  }

  /** The code a message shows: the first nonzero one, or else the first one. */
  function Shown(f: Family, v: Json): (r: Option<ExitCode>) {
    var codes := Codes(f, v, "");
    if FirstNonzero(codes).Some? then FirstNonzero(codes) else First(codes)
  }

  predicate ReportsError(resp: Json) {
    Get(resp, "error").Some? && Get(resp, "error").value != Null
  }

  predicate ReportsAborted(resp: Json) {
    var result := Get(resp, "result");
    result.Some? && Get(result.value, "aborted") == Some(Bool(true))
  }

  /** A field that is not a credential is still there after sanitizing. */
  lemma {:induction false} SanitizedFieldNamed(fields: List<Field>, order: seq<string>, key: string)
    requires Usable(order) && !IsCredentialKey(key)
    ensures FieldNamed(SanitizeFields(fields, order), key) ==
            match FieldNamed(fields, key) case None => None case Some(v) => Some(Sanitize(v, order))
  {
    if fields.Cons? {
      SanitizedFieldNamed(fields.tail, order, key);
    }
  }

  lemma ErrorIsNoCredential()
    ensures !IsCredentialKey("error")
  {
    assert Lower("error") == "error" by {
      assert "error"[1..] == "rror" && "rror"[1..] == "ror" && "ror"[1..] == "or" && "or"[1..] == "r" && "r"[1..] == "";
      assert Lower("r") == "r" && Lower("or") == "or" && Lower("ror") == "ror" && Lower("rror") == "rror";
    }
  }

  lemma SanitizedError(resp: Json, order: seq<string>)
    requires Usable(order) && ReportsError(resp)
    ensures Get(Sanitize(resp, order), "error") == Some(Sanitize(Get(resp, "error").value, order))
  {
    ErrorIsNoCredential();
    SanitizedFieldNamed(resp.fields, order, "error");
  }

  /** `order` is the replacement order the sanitizer happens to use on `resp`. */
  function Validate(resp: Json, order: seq<string>): (r: Result<Json, SubmitFailure>)
    requires Usable(order)
  {
    var clean := Sanitize(resp, order);
    if ReportsError(resp) then
      SanitizedError(resp, order);
      var err := Get(clean, "error").value;
      Err(SubmitFailure(Rejected(Shown(Compute, err), Shown(Action, err)), clean))
    else
      var exit := FirstNonzero(Codes(Compute, resp, ""));
      var action := FirstNonzero(Codes(Action, resp, ""));
      if exit.Some? then Err(SubmitFailure(ExitFailed(exit.value), clean))
      else if action.Some? then Err(SubmitFailure(ActionFailed(action.value), clean))
      else if ReportsAborted(resp) then
        Err(SubmitFailure(Aborted(Shown(Compute, resp), First(Codes(Action, resp, ""))), clean))
      else Ok(resp)
  }

  /** No position in `v` carries a nonzero code of the family. */
  ghost predicate AllZero(f: Family, v: Json) {
    forall p :: !Fails(CodeAt(f, v, p, ""))
  }

  lemma AllZeroExactly(f: Family, v: Json)
    ensures AllZero(f, v) <==> FirstNonzero(Codes(f, v, "")).None?
  {
    if FirstNonzero(Codes(f, v, "")).None? {
      forall p
        ensures !Fails(CodeAt(f, v, p, ""))
      {
        NoneFound(f, v, p, "", false);
      }
    } else {
      var p := FirstFound(f, v, "", false);
      assert Fails(CodeAt(f, v, p, ""));
    }
  }

  /** ACCEPTANCE IS EXACT: a response is accepted if and only if its error is absent or null, no readable
      exit code or action result code at any depth is nonzero, and its result is not aborted; and then it
      is handed on unchanged. */
  lemma AcceptedExactly(resp: Json, order: seq<string>)
    requires Usable(order)
    ensures var error, result := Get(resp, "error"), Get(resp, "result");
            Validate(resp, order).Ok? <==>
              && (error.None? || error == Some(Null))
              && AllZero(Compute, resp) && AllZero(Action, resp)
              && !(result.Some? && Get(result.value, "aborted") == Some(Bool(true)))
    ensures Validate(resp, order).Ok? ==> Validate(resp, order).value == resp
    ensures Validate(resp, order).Err? ==> Validate(resp, order).error.payload == Sanitize(resp, order)
  {
    AllZeroExactly(Compute, resp);
    AllZeroExactly(Action, resp);
  }

  /** What kind of failure is reported, if any. */
  function CauseOf(resp: Json, order: seq<string>): (r: Option<Cause>)
    requires Usable(order)
  {
    if Validate(resp, order).Ok? then None else Some(Validate(resp, order).error.cause)
  }

  /** THE CAUSE IS EXACT: an error outranks everything, a nonzero exit code outranks an action code, and
      either outranks an abort. */
  lemma CauseExactly(resp: Json, order: seq<string>)
    requires Usable(order)
    ensures var error, result := Get(resp, "error"), Get(resp, "result");
            var cause := CauseOf(resp, order);
            && ((cause.Some? && cause.value.Rejected?) <==> error.Some? && error != Some(Null))
            && (error.None? || error == Some(Null) ==>
                  && ((cause.Some? && cause.value.ExitFailed?) <==> !AllZero(Compute, resp))
                  && ((cause.Some? && cause.value.ActionFailed?) <==> AllZero(Compute, resp) && !AllZero(Action, resp))
                  && ((cause.Some? && cause.value.Aborted?) <==>
                        && AllZero(Compute, resp) && AllZero(Action, resp)
                        && result.Some? && Get(result.value, "aborted") == Some(Bool(true))))
  {
    AllZeroExactly(Compute, resp);
    AllZeroExactly(Action, resp);
  }

  /** WHICH CODE A MESSAGE SHOWS: the first nonzero one in traversal order; if all are zero the first one;
      and none only if no position carries any. */
  lemma ShownExactly(f: Family, v: Json) returns (p: List<nat>)
    ensures Shown(f, v).Some? ==> CodeAt(f, v, p, "") == Shown(f, v)
    ensures Shown(f, v).Some? ==> forall q :: Before(q, p) ==> !Wanted(CodeAt(f, v, q, ""), AllZero(f, v))
    ensures Fails(Shown(f, v)) <==> !AllZero(f, v)
    ensures Shown(f, v).None? ==> forall q :: CodeAt(f, v, q, "").None?
  {
    AllZeroExactly(f, v);
    p := Nil;
    if FirstThat(Codes(f, v, ""), false).Some? {
      p := FirstFound(f, v, "", false);
    } else if FirstThat(Codes(f, v, ""), true).Some? {
      p := FirstFound(f, v, "", true);
    } else {
      forall q
        ensures CodeAt(f, v, q, "").None?
      {
        NoneFound(f, v, q, "", true);
      }
    }
  }

  /** A rejection shows the codes of the sanitized error, an abort those of the response. */
  lemma MessageShows(resp: Json, order: seq<string>)
    requires Usable(order) && CauseOf(resp, order).Some?
    ensures var c := CauseOf(resp, order).value;
            && (c.Rejected? ==> var err := Sanitize(Get(resp, "error").value, order);
                                c == Rejected(Shown(Compute, err), Shown(Action, err)))
            && (c.Aborted? ==> c == Aborted(Shown(Compute, resp), Shown(Action, resp)))
  {
    if ReportsError(resp) {
      SanitizedError(resp, order);
    }
  }

  /** THE REPORTED CODE IS THE FIRST: it stands at a position before which, in traversal order, no
      nonzero code stands; an action code is reported only when no exit code is nonzero. */
  lemma ReportedIsFirst(resp: Json, order: seq<string>) returns (p: List<nat>)
    requires Usable(order) && Validate(resp, order).Err?
    requires var c := Validate(resp, order).error.cause; c.ExitFailed? || c.ActionFailed?
    ensures var c := Validate(resp, order).error.cause;
            var f := if c.ExitFailed? then Compute else Action;
            && CodeAt(f, resp, p, "") == Some(c.code) && c.code.code != 0
            && (forall q :: Before(q, p) ==> !Fails(CodeAt(f, resp, q, "")))
            && (c.ActionFailed? ==> AllZero(Compute, resp))
  {
    var c := Validate(resp, order).error.cause;
    AllZeroExactly(Compute, resp);
    p := FirstFound(if c.ExitFailed? then Compute else Action, resp, "", false);
  }

  lemma {:induction false} SubsequenceMember(a: seq<ExitCode>, b: seq<ExitCode>, x: ExitCode)
    requires Subsequence(a, b) && x in a
    ensures x in b
    decreases b
  {
    if a[0] == b[0] && Subsequence(a[1..], b[1..]) {
      if x != a[0] {
        SubsequenceMember(a[1..], b[1..], x);
      }
    } else {
      SubsequenceMember(a, b[1..], x);
    }
  }

  /** A rejection is described from the sanitized error, yet shows only codes the block manager sent. */
  lemma RejectionShowsSentCodes(resp: Json, order: seq<string>, f: Family)
    requires Usable(order) && ReportsError(resp)
    ensures var c := Validate(resp, order).error.cause;
            var shown := if f == Compute then c.exit else c.action;
            c.Rejected? && (shown.Some? ==> shown.value in Codes(f, Get(resp, "error").value, ""))
  {
    SanitizedError(resp, order);
    var err := Get(resp, "error").value;
    SanitizeInventsNothing(f, err, order, "");
    var shown := Shown(f, Sanitize(err, order));
    if shown.Some? {
      SubsequenceMember(Codes(f, Sanitize(err, order), ""), Codes(f, err, ""), shown.value);
    }
  }
}
