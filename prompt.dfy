/** The `validate` callback of the key prompt and of the value prompt of the
    interactive client: both reject a missing answer, the empty string and
    any answer that trims to the empty string. */
module Prompt {
  import opened Wrappers
  import opened JsBuiltins

  /** `validate(input)`; `None` is an `undefined` answer. An answer is
      accepted exactly when it holds a character that is not white space. */
  function ValidateInput(input: Option<string>): (ok: bool)
    ensures ok <==> input.Some? && exists i :: 0 <= i < |input.value| && !IsWhiteSpace(input.value[i])
  {
    if input.None? then false
    else
      TrimEmpty(input.value);
      if input.value == "" || Trim(input.value) == "" then false else true
  }

  /** White space alone, such as a run of blanks and tabs, is rejected. */
  lemma RejectsBlank(n: nat)
    ensures !ValidateInput(Some(seq(n, _ => ' ') + "\t"))
  {
    var s := seq(n, _ => ' ') + "\t";
    assert forall i :: 0 <= i < |s| ==> IsWhiteSpace(s[i]) by {
      forall i | 0 <= i < |s| ensures IsWhiteSpace(s[i]) {
        if i < n {
          assert s[i] == ' ';
        } else {
          assert s[i] == '\t';
        }
      }
    }
  }

  /** Surrounding white space does not make a key invalid. */
  lemma AcceptsPadded(w: string, k: string, v: string)
    requires k != "" && !IsWhiteSpace(k[0])
    ensures ValidateInput(Some(w + k + v))
  {
    assert (w + k + v)[|w|] == k[0];
  }
}
