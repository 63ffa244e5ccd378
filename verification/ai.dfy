/**
 The `AI` operation's own logic around the external text-generation call:
 the prompt that is sent and the answer extracted from what comes back.
 The call itself is not modelled; its outcome is an input.
 */
module Ai {
  import opened Wrappers
  import opened Text

  /** At most this many characters of the input are sent as the prompt. */
  const PromptLimit: nat := 500

  /** The answer when the call fails: a transport error, a timeout or an error status. */
  const Unavailable: string := "Unavailable"

  /** The answer when the reply yields no first token. */
  const Unknown: string := "Unknown"

  /**
   What the collaborator returned: a failure (anything the source's inner
   `catch` absorbs), or a reply whose `candidates[0].content.parts[0].text`
   is either missing somewhere along that path or a string.
   */
  datatype Outcome = Failure | Reply(text: Option<string>)

  /** `value.slice(0, 500)`: the first 500 characters, or the whole input when shorter. */
  function Prompt(s: string): (p: string)
    ensures |p| == if |s| < PromptLimit then |s| else PromptLimit
    ensures p == s[..|p|]
  {
    if |s| <= PromptLimit then s else s[..PromptLimit]
  }

  /**
   The operation's result for an outcome: "Unavailable" after a failure,
   "Unknown" when the text is missing, empty or starts with whitespace, and
   otherwise the text up to its first whitespace character.
   */
  function Answer(o: Outcome): (r: string)
    ensures r != []
    ensures o.Failure? ==> r == Unavailable
    ensures o == Reply(None) ==> r == Unknown
    ensures o.Reply? && o.text.Some? ==>
              var t := o.text.value;
              if t == [] || IsSpace(t[0]) then
                r == Unknown
              else
                && |r| <= |t| && r == t[..|r|]
                && (forall i :: 0 <= i < |r| ==> !IsSpace(r[i]))
                && (|r| < |t| ==> IsSpace(t[|r|]))
  {
    match o
    case Failure => Unavailable
    case Reply(None) => Unknown
    case Reply(Some(t)) =>
      var token := FirstToken(t);
      if token == [] then Unknown else token
  }
}
