/** Application errors: their chains, the status they are answered with, and the builders that derive them. */
module Errors {
  import opened Options

  /** An error with everything it unwraps to; Other stands for plain, wrapped and joined errors. */
  datatype Err =
    | App(code: string, message: string, httpStatus: int, cause: Option<Err>)
    | Fiber(status: int, text: string)
    | Validation(fields: map<string, seq<string>>)
    | Other(reason: string, causes: seq<Err>)

  datatype Kind = AppKind | FiberKind | ValidationKind

  const UNPROCESSABLE: int := 422
  const INTERNAL: int := 500

  predicate IsKind(e: Err, kind: Kind) {
    match kind
    case AppKind => e.App?
    case FiberKind => e.Fiber?
    case ValidationKind => e.Validation?
  }

  /** errors.As: the first error of the kind, depth first through everything that unwraps. */
  function First(e: Err, kind: Kind): (r: Option<Err>)
    ensures r.Some? ==> IsKind(r.value, kind)
    decreases e, 1
  {
    if IsKind(e, kind) then Some(e)
    else
      match e
      case App(_, _, _, cause) => if cause.None? then None else First(cause.value, kind)
      case Other(_, causes) => FirstIn(causes, kind)
      case _ => None
  }

  function FirstIn(es: seq<Err>, kind: Kind): (r: Option<Err>)
    ensures r.Some? ==> IsKind(r.value, kind)
    decreases es, 0
  {
    if es == [] then None
    else
      var found := First(es[0], kind);
      if found.Some? then found else FirstIn(es[1..], kind)
  }

  /** The HTTP status that the error handler answers with; None is a nil error. */
  function HandlerStatus(err: Option<Err>): int {
    if err.None? then INTERNAL
    else if First(err.value, ValidationKind).Some? then UNPROCESSABLE
    else if First(err.value, AppKind).Some? then First(err.value, AppKind).value.httpStatus
    else
      match First(err.value, FiberKind)
      case Some(f) => f.status
      case None => INTERNAL
  }

  /** Whether the error is captured as a server error. */
  predicate IsServerError(err: Option<Err>) {
    if err.None? then false
    else if First(err.value, AppKind).Some? then First(err.value, AppKind).value.httpStatus >= INTERNAL
    else
      match First(err.value, FiberKind)
      case Some(f) => f.status >= INTERNAL
      case None => true
  }

  // ---------- what the handler answers, by the chain written out ----------

  /** The chain in the order of errors.As and errors.Is: an error before what it unwraps to, left to right. */
  function Chain(e: Err): (chain: seq<Err>)
    ensures chain != []
    decreases e, 1
  {
    match e
    case App(_, _, _, Some(cause)) => [e] + Chain(cause)
    case Other(_, causes) => [e] + ChainIn(causes)
    case _ => [e]
  }

  function ChainIn(es: seq<Err>): seq<Err>
    decreases es, 0
  {
    if es == [] then [] else Chain(es[0]) + ChainIn(es[1..])
  }

  /** The one at i is the first of its kind. */
  ghost predicate FirstAt(chain: seq<Err>, kind: Kind, i: int) {
    0 <= i < |chain| && IsKind(chain[i], kind) && forall j :: 0 <= j < i ==> !IsKind(chain[j], kind)
  }

  ghost predicate FindsFirst(chain: seq<Err>, kind: Kind, found: Option<Err>) {
    match found
    case Some(x) => exists i :: FirstAt(chain, kind, i) && chain[i] == x
    case None => forall x :: x in chain ==> !IsKind(x, kind)
  }

  lemma FindsInAppend(a: seq<Err>, b: seq<Err>, kind: Kind, inA: Option<Err>, inB: Option<Err>)
    requires FindsFirst(a, kind, inA) && FindsFirst(b, kind, inB)
    ensures FindsFirst(a + b, kind, if inA.Some? then inA else inB)
  {
    hide IsKind;
    if inA.Some? {
      var i :| FirstAt(a, kind, i) && a[i] == inA.value;
      assert FirstAt(a + b, kind, i) && (a + b)[i] == inA.value;
    } else if inB.Some? {
      var i :| FirstAt(b, kind, i) && b[i] == inB.value;
      assert forall j :: 0 <= j < |a| ==> a[j] in a;
      assert FirstAt(a + b, kind, |a| + i) && (a + b)[|a| + i] == inB.value;
    }
  }

  lemma FindsOne(e: Err, kind: Kind)
    ensures FindsFirst([e], kind, if IsKind(e, kind) then Some(e) else None)
  {
    hide IsKind;
    if IsKind(e, kind) {
      assert FirstAt([e], kind, 0);
    }
  }

  /** errors.As finds exactly the first of its kind along the chain. */
  lemma {:induction false} FirstIsFirst(e: Err, kind: Kind)
    ensures FindsFirst(Chain(e), kind, First(e, kind))
    decreases e, 1
  {
    hide FindsFirst;
    FindsOne(e, kind);
    match e {
      case App(_, _, _, Some(cause)) =>
        FirstIsFirst(cause, kind);
        FindsInAppend([e], Chain(cause), kind, if IsKind(e, kind) then Some(e) else None, First(cause, kind));
      case Other(_, causes) =>
        FirstInIsFirst(causes, kind);
        FindsInAppend([e], ChainIn(causes), kind, if IsKind(e, kind) then Some(e) else None, FirstIn(causes, kind));
      case _ =>
    }
  }

  lemma {:induction false} FirstInIsFirst(es: seq<Err>, kind: Kind)
    ensures FindsFirst(ChainIn(es), kind, FirstIn(es, kind))
    decreases es, 0
  {
    if es != [] {
      FirstIsFirst(es[0], kind);
      FirstInIsFirst(es[1..], kind);
      hide FindsFirst;
      FindsInAppend(Chain(es[0]), ChainIn(es[1..]), kind, First(es[0], kind), FirstIn(es[1..], kind));
    }
  }

  /** There is one first of its kind only. */
  lemma FirstFound(chain: seq<Err>, kind: Kind, found: Option<Err>, i: nat)
    requires FindsFirst(chain, kind, found) && FirstAt(chain, kind, i)
    ensures found == Some(chain[i])
  {
    assert chain[i] in chain;
    var j :| FirstAt(chain, kind, j) && chain[j] == found.value;
    assert i == j;
  }

  lemma FoundByAs(e: Err, kind: Kind)
    ensures forall i :: FirstAt(Chain(e), kind, i) ==> First(e, kind) == Some(Chain(e)[i])
    ensures (forall x :: x in Chain(e) ==> !IsKind(x, kind)) <==> First(e, kind).None?
  {
    hide Chain, First, IsKind;
    FirstIsFirst(e, kind);
    forall i | FirstAt(Chain(e), kind, i) ensures First(e, kind) == Some(Chain(e)[i]) {
      FirstFound(Chain(e), kind, First(e, kind), i);
    }
  }

  /** The answer, by the chain alone: 422 if it holds a ValidationError anywhere; else the status of its first
      application error; else that of its first fiber error; else 500. */
  lemma HandlerMeaning(e: Err)
    ensures var chain, answer := Chain(e), HandlerStatus(Some(e));
            if exists x :: x in chain && x.Validation? then answer == 422
            else if exists x :: x in chain && x.App? then
              forall i :: 0 <= i < |chain| && chain[i].App? && (forall j :: 0 <= j < i ==> !chain[j].App?) ==>
                answer == chain[i].httpStatus
            else if exists x :: x in chain && x.Fiber? then
              forall i :: 0 <= i < |chain| && chain[i].Fiber? && (forall j :: 0 <= j < i ==> !chain[j].Fiber?) ==>
                answer == chain[i].status
            else answer == 500
  {
    hide Chain, First;
    FoundByAs(e, ValidationKind);
    FoundByAs(e, AppKind);
    FoundByAs(e, FiberKind);
    AsFirst(Chain(e));
  }

  /** Whether it is captured, by the chain alone: its first application error decides, whatever else it holds; then
      its first fiber error; an error with neither is captured. */
  lemma CaptureMeaning(e: Err)
    ensures var chain, captured := Chain(e), IsServerError(Some(e));
            if exists x :: x in chain && x.App? then
              forall i :: 0 <= i < |chain| && chain[i].App? && (forall j :: 0 <= j < i ==> !chain[j].App?) ==>
                (captured <==> chain[i].httpStatus >= 500)
            else if exists x :: x in chain && x.Fiber? then
              forall i :: 0 <= i < |chain| && chain[i].Fiber? && (forall j :: 0 <= j < i ==> !chain[j].Fiber?) ==>
                (captured <==> chain[i].status >= 500)
            else captured
  {
    hide Chain, First;
    FoundByAs(e, AppKind);
    FoundByAs(e, FiberKind);
    AsFirst(Chain(e));
  }

  lemma AsFirst(chain: seq<Err>)
    ensures forall i :: 0 <= i < |chain| && chain[i].App? && (forall j :: 0 <= j < i ==> !chain[j].App?) ==>
              FirstAt(chain, AppKind, i)
    ensures forall i :: 0 <= i < |chain| && chain[i].Fiber? && (forall j :: 0 <= j < i ==> !chain[j].Fiber?) ==>
              FirstAt(chain, FiberKind, i)
  {
  }

  /** An error under any number of wrappings, as by fmt.Errorf with `%w`. */
  function Wrapped(e: Err, reasons: seq<string>): Err
    decreases reasons
  {
    if reasons == [] then e else Other(reasons[0], [Wrapped(e, reasons[1..])])
  }

  lemma {:induction false} FirstOfWrapped(e: Err, reasons: seq<string>, kind: Kind)
    ensures First(Wrapped(e, reasons), kind) == First(e, kind)
    decreases reasons
  {
    if reasons != [] {
      FirstOfWrapped(e, reasons[1..], kind);
      var inner := Wrapped(e, reasons[1..]);
      assert FirstIn([inner][1..], kind) == None;
      assert FirstIn([inner], kind) == First(inner, kind);
    }
  }

  lemma {:induction false} ValidationUnwraps(e: Err, reasons: seq<string>)
    ensures First(Wrapped(e, reasons), ValidationKind).None? <==> forall x :: x in Chain(e) ==> !x.Validation?
  {
    hide Chain, First, Wrapped;
    FirstOfWrapped(e, reasons, ValidationKind);
    FirstIsFirst(e, ValidationKind);
  }

  /** A fiber error keeps its own status under any wrapping. */
  lemma FiberAnswers(status: int, text: string, reasons: seq<string>)
    ensures HandlerStatus(Some(Wrapped(Fiber(status, text), reasons))) == status
    ensures IsServerError(Some(Wrapped(Fiber(status, text), reasons))) <==> status >= 500
  {
    hide Wrapped;
    FirstOfWrapped(Fiber(status, text), reasons, ValidationKind);
    FirstOfWrapped(Fiber(status, text), reasons, AppKind);
    FirstOfWrapped(Fiber(status, text), reasons, FiberKind);
  }

  /** A nil error is not captured; the answer to one would be 500. */
  lemma NilMeaning()
    ensures HandlerStatus(None) == 500 && !IsServerError(None)
  {
  }

  /** Without a ValidationError in the chain, an error is captured iff it is answered with 500 or more. (With one,
      the answer is 422, so the two disagree whenever the error is captured.) */
  lemma CaptureAgrees(e: Err)
    requires First(e, ValidationKind).None?
    ensures IsServerError(Some(e)) <==> HandlerStatus(Some(e)) >= INTERNAL
  {
  }

  /** A bare ValidationError is answered with 422 and captured all the same. */
  lemma ValidationIsCaptured(fields: map<string, seq<string>>)
    ensures HandlerStatus(Some(Validation(fields))) == UNPROCESSABLE && IsServerError(Some(Validation(fields)))
  {
  }

  /** errors.Is against an application error: some application error in the chain has its code. */
  predicate HasCode(e: Err, code: string)
    decreases e, 1
  {
    || (e.App? && e.code == code)
    || (e.App? && e.cause.Some? && HasCode(e.cause.value, code))
    || (e.Other? && AnyHasCode(e.causes, code))
  }

  predicate AnyHasCode(es: seq<Err>, code: string)
    decreases es, 0
  {
    es != [] && (HasCode(es[0], code) || AnyHasCode(es[1..], code))
  }

  /** errors.Is finds exactly the codes of the application errors along the chain. */
  lemma {:induction false} HasCodeMeaning(e: Err, code: string)
    ensures HasCode(e, code) <==> exists x :: x in Chain(e) && x.App? && x.code == code
    decreases e, 1
  {
    match e {
      case App(_, _, _, Some(cause)) =>
        HasCodeMeaning(cause, code);
      case Other(_, causes) =>
        AnyHasCodeMeaning(causes, code);
      case _ =>
    }
  }

  lemma {:induction false} AnyHasCodeMeaning(es: seq<Err>, code: string)
    ensures AnyHasCode(es, code) <==> exists x :: x in ChainIn(es) && x.App? && x.code == code
    decreases es, 0
  {
    if es != [] {
      HasCodeMeaning(es[0], code);
      AnyHasCodeMeaning(es[1..], code);
    }
  }

  // ---------- the builders on the heap ----------

  datatype Step = WithMessage(message: string) | WithCode(code: string) | Wrap(cause: Option<Err>)

  function Derive(e: Err, step: Step): Err
    requires e.App?
  {
    match step
    case WithMessage(message) => e.(message := message)
    case WithCode(code) => e.(code := code)
    case Wrap(cause) => e.(cause := cause)
  }

  function DeriveAll(e: Err, steps: seq<Step>): (r: Err)
    requires e.App?
    ensures r.App?
    decreases steps
  {
    if steps == [] then e else DeriveAll(Derive(e, steps[0]), steps[1..])
  }

  class AppError {
    var code: string
    var message: string
    var httpStatus: int
    var cause: Option<Err>

    ghost function View(): Err
      reads this
    {
      App(code, message, httpStatus, cause)
    }

    constructor (code: string, message: string, httpStatus: int, cause: Option<Err>)
      ensures View() == App(code, message, httpStatus, cause)
    {
      this.code, this.message, this.httpStatus, this.cause := code, message, httpStatus, cause;
    }

    method Clone() returns (c: AppError)
      ensures fresh(c) && c.View() == View()
    {
      c := new AppError(code, message, httpStatus, cause);
    }

    /** WithMessage, WithCode and Wrap: a changed clone; the receiver is not among the objects they may modify. */
    method Apply(step: Step) returns (c: AppError)
      ensures fresh(c) && c.View() == Derive(View(), step)
    {
      c := Clone();
      match step {
        case WithMessage(message) => c.message := message;
        case WithCode(code) => c.code := code;
        case Wrap(cause) => c.cause := cause;
      }
    }
  }

  /** Any sequence of builder calls leaves every error that existed before untouched on the heap, the predefined
      ones included, and yields the derived value. */
  method Build(start: AppError, steps: seq<Step>, predefined: set<AppError>) returns (c: AppError)
    ensures c.View() == DeriveAll(start.View(), steps)
    ensures c == start || fresh(c)
    ensures forall e :: e in predefined ==> e.View() == old(e.View())
  {
    c := start;
    for i := 0 to |steps|
      invariant c == start || fresh(c)
      invariant DeriveAll(c.View(), steps[i..]) == DeriveAll(start.View(), steps)
    {
      c := c.Apply(steps[i]);
      assert steps[i..][1..] == steps[i + 1..];
    }
  }

  /** The code that a sequence of builder calls ends with. */
  function LastCode(code: string, steps: seq<Step>): string
    decreases steps
  {
    if steps == [] then code else LastCode(if steps[0].WithCode? then steps[0].code else code, steps[1..])
  }

  /** No builder changes the status, so a derived error is answered and captured like the error it derives from,
      whatever it wraps; and it still matches by code exactly when its last code or its cause does. */
  lemma {:induction false} DerivedKeepsStatus(e: Err, steps: seq<Step>, code: string)
    requires e.App?
    ensures var d := DeriveAll(e, steps);
            && d.httpStatus == e.httpStatus && d.code == LastCode(e.code, steps)
            && IsServerError(Some(d)) == IsServerError(Some(e))
            && (HasCode(d, code) <==>
                  LastCode(e.code, steps) == code || (d.cause.Some? && HasCode(d.cause.value, code)))
    decreases steps
  {
    if steps != [] {
      DerivedKeepsStatus(Derive(e, steps[0]), steps[1..], code);
    }
  }

  /** Whatever builders derive an application error, and however deep it is wrapped: it is answered with the status
      of the error it derives from, unless its cause brings in a ValidationError. */
  lemma DerivedAnswers(e: Err, steps: seq<Step>, reasons: seq<string>)
    requires e.App?
    ensures var d := DeriveAll(e, steps);
            var answer := HandlerStatus(Some(Wrapped(d, reasons)));
            && ((forall x :: x in Chain(d) ==> !x.Validation?) ==> answer == e.httpStatus)
            && ((exists x :: x in Chain(d) && x.Validation?) ==> answer == 422)
            && (IsServerError(Some(Wrapped(d, reasons))) <==> e.httpStatus >= 500)
  {
    hide Chain, Wrapped, DeriveAll;
    var d := DeriveAll(e, steps);
    DerivedKeepsStatus(e, steps, "");
    ValidationUnwraps(d, reasons);
    FirstOfWrapped(d, reasons, AppKind);
  }
}
