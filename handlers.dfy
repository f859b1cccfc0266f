/**
 * The outcome logic of the client's two action handlers: the submit handler of the signup
 * form and the click handler of the remove buttons. Each run is one step from its inputs
 * (the form or button values, the confirmation answer, how the request ended) to its effects
 * (the confirmation prompt, the request sent, the status message, the form reset, the
 * re-fetches of the activity list).
 *
 * `encodeURIComponent` is the parameter `enc`: nothing is assumed of it except where a lemma
 * says so.
 */
module Handlers {
  import opened HtmlEscape
  import opened Render

  datatype Option<T> = None | Some(value: T)

  /** The fields of a JSON reply body that the handlers read; each may be absent. */
  datatype Body = Body(message: Option<string>, detail: Option<string>)

  /**
   * How a request ended: a response with its `ok` flag and parsed body, or an error thrown
   * by the request or by the parsing of its body.
   */
  datatype Reply = Response(ok: bool, body: Body) | Thrown

  datatype Kind = Success | Error

  /** The text and class of the message area, which a handler also un-hides. */
  datatype Status = Status(text: string, kind: Kind)

  datatype Verb = Post | Delete

  datatype Request = Request(verb: Verb, url: string)

  /** What one run of a handler does. */
  datatype Effects = Effects(
    prompt: Option<string>,    // the confirmation question asked
    request: Option<Request>,  // the request sent
    status: Option<Status>,    // the message shown
    resetForm: bool,           // whether the signup form is reset
    refetches: nat)            // how many times the activity list is fetched again

  /** The `dataset` of a clicked remove button; an attribute may be absent. */
  datatype Button = Button(email: Option<string>, activity: Option<string>)

  const SignupFallback := "An error occurred"
  const SignupFailure := "Failed to sign up. Please try again."
  const UnregisterFallback := "Failed to unregister"
  const UnregisterFailure := "Failed to unregister. Please try again."

  /** JavaScript truthiness of a value that is a string or undefined. */
  predicate Truthy(s: Option<string>) {
    s.Some? && s.value != ""
  }

  /** `s || fallback`. */
  function OrElse(s: Option<string>, fallback: string): string {
    if Truthy(s) then s.value else fallback
  }

  /** The text that assigning `s` to `textContent` leaves: undefined leaves the empty string. */
  function TextOf(s: Option<string>): string {
    if s.Some? then s.value else ""
  }

  predicate Succeeded(reply: Reply) {
    reply.Response? && reply.ok
  }

  function SignupUrl(enc: string -> string, activity: string, email: string): string {
    "/activities/" + enc(activity) + "/signup?email=" + enc(email)
  }

  function UnregisterUrl(enc: string -> string, activity: string, email: string): string {
    "/activities/" + enc(activity) + "/participants?email=" + enc(email)
  }

  /** The message a finished request leaves: the reply's message, its detail or a fallback, or the failure text. */
  function ReplyStatus(reply: Reply, fallback: string, failure: string): Status {
    match reply
    case Thrown => Status(failure, Error)
    case Response(ok, body) =>
      if ok then Status(TextOf(body.message), Success) else Status(OrElse(body.detail, fallback), Error)
  }

  /**
   * The submit handler: it always sends the POST. A successful reply shows its message,
   * resets the form and re-fetches the list once; a failed one shows its detail or
   * "An error occurred"; a thrown error shows the failure text. Neither failure resets or re-fetches.
   */
  function Signup(enc: string -> string, email: string, activity: string, reply: Reply): (e: Effects)
    ensures e.prompt == None
    ensures e.request == Some(Request(Post, SignupUrl(enc, activity, email)))
    ensures e.status.Some?
    ensures e.status.value.kind == Success <==> Succeeded(reply)
    ensures e.resetForm <==> Succeeded(reply)
    ensures e.refetches == if Succeeded(reply) then 1 else 0
    ensures Succeeded(reply) ==> e.status.value.text == TextOf(reply.body.message)
    ensures reply.Response? && !reply.ok && Truthy(reply.body.detail) ==>
      e.status.value.text == reply.body.detail.value
    ensures reply.Response? && !reply.ok && !Truthy(reply.body.detail) ==>
      e.status.value.text == SignupFallback
    ensures reply.Thrown? ==> e.status.value.text == SignupFailure
  {
    var ok := Succeeded(reply);
    Effects(None, Some(Request(Post, SignupUrl(enc, activity, email))),
            Some(ReplyStatus(reply, SignupFallback, SignupFailure)), ok, if ok then 1 else 0)
  }

  /**
   * The click handler of a remove button. A click off any remove button, a button whose email
   * or activity is missing or empty, or a declined confirmation sends nothing and changes
   * nothing. Otherwise it sends the DELETE; a successful reply shows its message and re-fetches
   * the list once; a failed one shows its detail or "Failed to unregister"; a thrown error shows
   * the failure text. It never resets the form.
   */
  function Unregister(enc: string -> string, target: Option<Button>, confirmed: bool, reply: Reply): (e: Effects)
    ensures !e.resetForm
    ensures e.prompt.Some? <==>
      target.Some? && Truthy(target.value.email) && Truthy(target.value.activity)
    ensures e.prompt.Some? ==>
      e.prompt.value == "Unregister " + target.value.email.value + " from " + target.value.activity.value + "?"
    ensures e.request.Some? <==> e.prompt.Some? && confirmed
    ensures e.request.None? ==> e.status == None && e.refetches == 0
    ensures e.request.Some? ==>
      && e.request.value == Request(Delete, UnregisterUrl(enc, target.value.activity.value, target.value.email.value))
      && e.status.Some?
      && (e.status.value.kind == Success <==> Succeeded(reply))
      && e.refetches == (if Succeeded(reply) then 1 else 0)
    ensures e.request.Some? && Succeeded(reply) ==> e.status.value.text == TextOf(reply.body.message)
    ensures e.request.Some? && reply.Response? && !reply.ok && Truthy(reply.body.detail) ==>
      e.status.value.text == reply.body.detail.value
    ensures e.request.Some? && reply.Response? && !reply.ok && !Truthy(reply.body.detail) ==>
      e.status.value.text == UnregisterFallback
    ensures e.request.Some? && reply.Thrown? ==> e.status.value.text == UnregisterFailure
  {
    if target.None? || !Truthy(target.value.email) || !Truthy(target.value.activity) then
      Effects(None, None, None, false, 0)
    else
      var email, activity := target.value.email.value, target.value.activity.value;
      var prompt := Some("Unregister " + email + " from " + activity + "?");
      if !confirmed then
        Effects(prompt, None, None, false, 0)
      else
        var ok := Succeeded(reply);
        Effects(prompt, Some(Request(Delete, UnregisterUrl(enc, activity, email))),
                Some(ReplyStatus(reply, UnregisterFallback, UnregisterFailure)), false, if ok then 1 else 0)
  }

  // ---------------------------------------------------------------------------------------
  // The remove buttons of a rendered card

  /**
   * The `dataset` a browser gives the remove button of the item that starts at fragment `k`:
   * the decoded values of its `data-email` and `data-activity` attributes.
   */
  function ButtonOf(fs: seq<Frag>, k: nat): Button
    requires k + ItemWidth <= |fs|
  {
    Button(Some(Unescape(FragHtml(fs[k + 5]))), Some(Unescape(FragHtml(fs[k + 7]))))
  }

  /**
   * Clicking the remove button of the `i`-th participant of a card and confirming sends the
   * DELETE for exactly that participant and activity, whatever characters their texts hold;
   * for an empty participant or activity name the button does nothing.
   */
  lemma RemoveButtonTargetsParticipant(enc: string -> string, a: Activity, i: nat, reply: Reply)
    requires i < |a.participants|
    ensures ItemStart(i) + ItemWidth <= |CardFrags(a)|
    ensures Unregister(enc, Some(ButtonOf(CardFrags(a), ItemStart(i))), true, reply).request ==
      if a.participants[i] != "" && a.name != "" then
        Some(Request(Delete, UnregisterUrl(enc, a.name, a.participants[i])))
      else None
  {
    CardItem(a, i);
    FieldDisplayedLiterally(a.participants[i]);
    FieldDisplayedLiterally(a.name);
  }

  // ---------------------------------------------------------------------------------------
  // Request URLs

  /** A concatenation splits uniquely at the first slash when the prefixes hold none. */
  lemma SplitAtSlash(x: string, r: string, x': string, r': string)
    requires '/' !in x && '/' !in x'
    requires |r| > 0 && r[0] == '/' && |r'| > 0 && r'[0] == '/'
    requires x + r == x' + r'
    ensures x == x' && r == r'
  {
    var s := x + r;
    FirstSlash(x, r);
    FirstSlash(x', r');
    assert |x| == |x'|;
    assert x == s[..|x|] == x';
    assert r == s[|x|..] == r';
  }

  /** In a slash-free prefix followed by a slash, the first slash is right after the prefix. */
  lemma FirstSlash(x: string, r: string)
    requires '/' !in x && |r| > 0 && r[0] == '/'
    ensures (x + r)[|x|] == '/'
    ensures forall k :: 0 <= k < |x| ==> (x + r)[k] != '/'
  {
    assert forall k :: 0 <= k < |x| ==> (x + r)[k] == x[k];
  }

  /** The parts of a request URL under `/activities/`: the encoded activity, then the rest. */
  lemma SplitUrl(x: string, mid: string, y: string, x': string, mid': string, y': string)
    requires '/' !in x && '/' !in x'
    requires |mid| > 0 && mid[0] == '/' && |mid'| > 0 && mid'[0] == '/'
    requires "/activities/" + x + mid + y == "/activities/" + x' + mid' + y'
    ensures x == x' && mid + y == mid' + y'
  {
    var p := "/activities/";
    assert p + x + mid + y == p + (x + (mid + y));
    assert p + x' + mid' + y' == p + (x' + (mid' + y'));
    assert (p + (x + (mid + y)))[|p|..] == x + (mid + y);
    assert (p + (x' + (mid' + y')))[|p|..] == x' + (mid' + y');
    SplitAtSlash(x, mid + y, x', mid' + y');
  }

  /**
   * With an encoder that is injective and escapes `/` (as `encodeURIComponent` is and does),
   * a signup URL names its activity and email unambiguously.
   */
  lemma SignupUrlInjective(enc: string -> string, a: string, e: string, a': string, e': string)
    requires '/' !in enc(a) && '/' !in enc(a')
    requires enc(a) == enc(a') ==> a == a'
    requires enc(e) == enc(e') ==> e == e'
    requires SignupUrl(enc, a, e) == SignupUrl(enc, a', e')
    ensures a == a' && e == e'
  {
    var mid := "/signup?email=";
    SplitUrl(enc(a), mid, enc(e), enc(a'), mid, enc(e'));
    assert (mid + enc(e))[|mid|..] == enc(e) && (mid + enc(e'))[|mid|..] == enc(e');
  }

  /** The same for the unregistration URL. */
  lemma UnregisterUrlInjective(enc: string -> string, a: string, e: string, a': string, e': string)
    requires '/' !in enc(a) && '/' !in enc(a')
    requires enc(a) == enc(a') ==> a == a'
    requires enc(e) == enc(e') ==> e == e'
    requires UnregisterUrl(enc, a, e) == UnregisterUrl(enc, a', e')
    ensures a == a' && e == e'
  {
    var mid := "/participants?email=";
    SplitUrl(enc(a), mid, enc(e), enc(a'), mid, enc(e'));
    assert (mid + enc(e))[|mid|..] == enc(e) && (mid + enc(e'))[|mid|..] == enc(e');
  }

  /** A signup URL is never an unregistration URL when the encoder escapes `/`. */
  lemma SignupIsNotUnregisterUrl(enc: string -> string, a: string, e: string, a': string, e': string)
    requires '/' !in enc(a) && '/' !in enc(a')
    ensures SignupUrl(enc, a, e) != UnregisterUrl(enc, a', e')
  {
    var s, u := "/signup?email=", "/participants?email=";
    RoutesDiffer(enc(e), enc(e'));
    if SignupUrl(enc, a, e) == UnregisterUrl(enc, a', e') {
      SplitUrl(enc(a), s, enc(e), enc(a'), u, enc(e'));
    }
  }

  lemma RoutesDiffer(y: string, y': string)
    ensures "/signup?email=" + y != "/participants?email=" + y'
  {
    var l, r := "/signup?email=" + y, "/participants?email=" + y';
    assert l[1] == 's' && r[1] == 'p';
  }
}
