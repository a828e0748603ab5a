/*******************************************************************************
 *  The participants' project form: the trimmed payload it posts, the GitHub
 *  link check run on every keystroke, and the button and message state once
 *  the server has answered.
 *******************************************************************************/

module SubmitForm {
  import opened Js

  /** The four text inputs as typed. */
  datatype Fields = Fields(teamName: string, projectName: string, description: string, githubLink: string)

  /** No white space at either end. */
  predicate Trimmed(s: string) {
    s == [] || (!IsJsSpace(s[0]) && !IsJsSpace(s[|s| - 1]))
  }

  /** The keys of the posted body, in the order `JSON.stringify` writes them. */
  const PayloadKeys: seq<string> := ["team_name", "project_name", "project_description", "github_link"]

  /** The four typed values, in the order they are posted. */
  function Typed(f: Fields): seq<string> {
    [f.teamName, f.projectName, f.description, f.githubLink]
  }

  /** The JSON body posted to `/api/submissions`: exactly the four keys, in
      that order, each with its field's value trimmed. */
  function Payload(f: Fields): (p: seq<(string, string)>)
    ensures |p| == |PayloadKeys| && forall i | 0 <= i < |p| :: p[i].0 == PayloadKeys[i]
    ensures forall i | 0 <= i < |p| :: p[i].1 == Trim(Typed(f)[i])
  {
    var k, t := PayloadKeys, Typed(f);
    var p := [(k[0], Trim(t[0])), (k[1], Trim(t[1])), (k[2], Trim(t[2])), (k[3], Trim(t[3]))];
    assert forall i | 0 <= i < 4 :: p[i] == (k[i], Trim(t[i]));
    p
  }

  /** v is what remains of s once the white space at both ends is cut off. */
  ghost predicate TrimmedFrom(v: string, s: string) {
    && Trimmed(v)
    && exists i, j | 0 <= i <= j <= |s| :: v == s[i..j] && AllSpace(s[..i]) && AllSpace(s[j..])
  }

  /** Every posted value is its typed value with the white space at both ends
      cut off, and nothing more. */
  lemma PayloadTrimmed(f: Fields)
    ensures forall i | 0 <= i < |Payload(f)| :: TrimmedFrom(Payload(f)[i].1, Typed(f)[i])
  {
    forall i | 0 <= i < 4 ensures TrimmedFrom(Payload(f)[i].1, Typed(f)[i]) {
      var a, b := TrimIsInfix(Typed(f)[i]);
    }
  }

  /** Submitting what was already submitted sends the same body. */
  lemma PayloadStable(f: Fields)
    ensures Payload(Fields(Trim(f.teamName), Trim(f.projectName), Trim(f.description), Trim(f.githubLink))) == Payload(f)
  {
    TrimIdempotent(f.teamName);
    TrimIdempotent(f.projectName);
    TrimIdempotent(f.description);
    TrimIdempotent(f.githubLink);
  }

  // ---------------------------------------------------------------------------
  // The GitHub link check
  // ---------------------------------------------------------------------------

  const LinkError := "Please enter a valid URL starting with http:// or https://"

  /** The custom validity message for the link input: empty (valid) when the
      trimmed value is empty or starts with `http://` or `https://`. */
  function LinkValidity(value: string): (msg: string)
    ensures msg == "" <==> (var v := Trim(value); v == "" || StartsWith(v, "http://") || StartsWith(v, "https://"))
    ensures msg == "" || msg == LinkError
  {
    var v := Trim(value);
    if v != "" && !StartsWith(v, "http://") && !StartsWith(v, "https://") then LinkError else ""
  }

  /** Spaces around the link never change its validity. */
  lemma ValidityIgnoresSpaces(w1: string, value: string, w2: string)
    requires AllSpace(w1) && AllSpace(w2)
    ensures LinkValidity(w1 + value + w2) == LinkValidity(value)
  {
    TrimIgnoresSurroundingSpace(w1, value, w2);
  }

  /** The link that is posted passes the same check as the input did. */
  lemma SentLinkKeepsValidity(f: Fields)
    ensures LinkValidity(Payload(f)[3].1) == LinkValidity(f.githubLink)
  {
    assert Payload(f)[3].1 == Trim(f.githubLink);
    ValidityOfTrimmed(f.githubLink);
  }

  /** Checking a trimmed value gives the same verdict. */
  lemma ValidityOfTrimmed(value: string)
    ensures LinkValidity(Trim(value)) == LinkValidity(value)
  {
    TrimIdempotent(value);
  }

  // ---------------------------------------------------------------------------
  // Messages and the button
  // ---------------------------------------------------------------------------

  const SuccessClass := "p-4 rounded-lg text-center font-medium bg-green-600 bg-opacity-80 text-white"
  const ErrorClass := "p-4 rounded-lg text-center font-medium bg-red-600 bg-opacity-80 text-white"

  /** The shown message: its text, its class, and the delay after which it is
      hidden again (None: it stays). */
  datatype Message = Message(text: string, cssClass: string, hideAfterMs: Option<int>)

  /** `showMessage(type, text)`: the class depends only on whether the type is
      "success"; only "error" messages are hidden, after 5 s. */
  function ShowMessage(kind: string, text: string): (m: Message)
    ensures m.text == text
    ensures m.cssClass == SuccessClass <==> kind == "success"
    ensures m.cssClass == SuccessClass || m.cssClass == ErrorClass
    ensures m.hideAfterMs.Some? <==> kind == "error"
  {
    Message(text, if kind == "success" then SuccessClass else ErrorClass,
            if kind == "error" then Some(5000) else None)
  }

  /** The server's answer. A body that is not JSON makes `response.json()`
      throw, so it counts as a failed request (None). */
  datatype Answer = Answer(ok: bool, error: Option<string>)

  datatype Button = Button(disabled: bool, caption: string)

  /** The page once the answer is handled. */
  datatype Outcome = Outcome(button: Button, message: Message, formReset: bool, redirectAfterMs: Option<int>)

  const Submitting := Button(true, "Submitting...")
  const Idle := Button(false, "Submit Project")

  const Submitted := "Project submitted successfully! \U{1F389}"
  const Rejected := "Failed to submit project. Please try again."
  const Offline := "Network error. Please check your connection and try again."

  /** The submit handler after the button went to Submitting. */
  function AfterSubmit(answer: Option<Answer>): (o: Outcome)
    ensures o.button == Submitting <==> answer.Some? && answer.value.ok
    ensures o.button != Submitting ==> o.button == Idle
    ensures o.formReset <==> o.redirectAfterMs.Some?
    ensures o.formReset <==> answer.Some? && answer.value.ok
    ensures answer.Some? && !answer.value.ok ==> o.message.text == OrStr(answer.value.error, Rejected)
    ensures answer.None? ==> o.message.text == Offline
  {
    match answer
    case None => Outcome(Idle, ShowMessage("error", Offline), false, None)
    case Some(a) =>
      if a.ok then Outcome(Submitting, ShowMessage("success", Submitted), true, Some(2000))
      else Outcome(Idle, ShowMessage("error", OrStr(a.error, Rejected)), false, None)
  }

  /** Exactly one of two things happens: the button stays disabled while the
      page moves on, or it is re-enabled next to a red message that hides
      itself. */
  lemma EitherDoneOrRetry(answer: Option<Answer>)
    ensures var o := AfterSubmit(answer);
      && (o.button.disabled <==> o.message.hideAfterMs.None?)
      && (o.button.disabled <==> o.message.cssClass == SuccessClass)
  {
  }
}
