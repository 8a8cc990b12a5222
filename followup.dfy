/** What happens to a command after extraction: the text `execute_git_command`
    returns, its truncation, and the follow-up prompt that asks for a
    summary (gitlab_ai_assistant.py, lines 87-99, 154 and 157-164). */
module FollowUp {
  import opened Text

  /** How the shell call ended, as far as the script can tell. The process
      itself (shell, working directory, environment) is outside the model. */
  datatype ShellRun =
    | Completed(stdout: string)     // exit status 0
    | NonZeroExit(detail: string)   // the text of the CalledProcessError

  const ErrorPrefix := "An error occurred while executing the command: "

  /** The text `execute_git_command` returns: standard output on success;
      on a non-zero exit the failure is reported as text, not raised. */
  function CommandOutput(run: ShellRun): (r: string)
    ensures run.Completed? ==> r == run.stdout
    ensures run.NonZeroExit? ==>
              && |ErrorPrefix| <= |r|
              && r[..|ErrorPrefix|] == ErrorPrefix
              && r[|ErrorPrefix|..] == run.detail
  {
    match run
    case Completed(out) => out
    case NonZeroExit(detail) => ErrorPrefix + detail
  }

  /** The cap on the command output that is passed on. */
  const ResponseLimit := 6740

  /** The ceiling on the follow-up prompt that the cap is meant to respect
      (the comment on line 154). */
  const InputCeiling := 7000

  /** `git_response[:6740]`: a prefix, cut at a character count regardless
      of line or word boundaries. */
  function Truncate(s: string): (r: string)
    ensures |r| == if |s| <= ResponseLimit then |s| else ResponseLimit
    ensures r == s[..|r|]
  {
    if |s| <= ResponseLimit then s else s[..ResponseLimit]
  }

  lemma TruncateIdempotent(s: string)
    ensures Truncate(Truncate(s)) == Truncate(s)
  {
  }

  const Preamble := "The Git command was executed successfully. Provide a detailed summary of the outcome in less than 1000 words."
  const QuestionLabel := "\n\nQuestion: "
  const CommandLabel := "\n\nGit Command: "
  const ResponseLabel := "\n\nGit Response: "
  const Closing := "\n\nSummary:"

  /** Number of characters the template adds around its three fields. */
  const TemplateLength := |Preamble| + |QuestionLabel| + |CommandLabel| + |ResponseLabel| + |Closing|

  /** `follow_up_prompt`: the question, the command and the (truncated)
      response embedded verbatim, in that order, between fixed text. */
  function FollowUpPrompt(question: string, command: string, response: string): (r: string)
    ensures |r| == |question| + |command| + |response| + TemplateLength
  {
    Preamble + (QuestionLabel + (question + (CommandLabel + (command + (ResponseLabel + (response + Closing))))))
  }

  /** Reads the three fields back from a prompt, given the lengths of the
      first two, checking every piece of fixed text on the way. */
  function Fields(prompt: string, questionLength: nat, commandLength: nat): (r: Option<(string, string, string)>)
  {
    var head := Preamble + QuestionLabel;
    if |prompt| < |head| || prompt[..|head|] != head then None
    else
      var t := prompt[|head|..];
      if |t| < questionLength then None
      else
        var question, t := t[..questionLength], t[questionLength..];
        if |t| < |CommandLabel| || t[..|CommandLabel|] != CommandLabel then None
        else
          var t := t[|CommandLabel|..];
          if |t| < commandLength then None
          else
            var command, t := t[..commandLength], t[commandLength..];
            if |t| < |ResponseLabel| || t[..|ResponseLabel|] != ResponseLabel then None
            else
              var t := t[|ResponseLabel|..];
              if |t| < |Closing| || t[|t| - |Closing|..] != Closing then None
              else Some((question, command, t[..|t| - |Closing|]))
  }

  /** The prompt holds question, command and response verbatim and in this
      order: reading them back at their positions gives them all. */
  lemma FollowUpFieldsRoundTrip(question: string, command: string, response: string)
    ensures Fields(FollowUpPrompt(question, command, response), |question|, |command|)
         == Some((question, command, response))
  {
    var t5 := response + Closing;
    var t4 := ResponseLabel + t5;
    var t3 := command + t4;
    var t2 := CommandLabel + t3;
    var t1 := question + t2;
    var p := Preamble + (QuestionLabel + t1);
    assert p == FollowUpPrompt(question, command, response);
    assert p == (Preamble + QuestionLabel) + t1;
    assert p[..|Preamble + QuestionLabel|] == Preamble + QuestionLabel;
    assert p[|Preamble + QuestionLabel|..] == t1;
    assert t1[..|question|] == question && t1[|question|..] == t2;
    assert t2[..|CommandLabel|] == CommandLabel && t2[|CommandLabel|..] == t3;
    assert t3[..|command|] == command && t3[|command|..] == t4;
    assert t4[..|ResponseLabel|] == ResponseLabel && t4[|ResponseLabel|..] == t5;
    assert t5[..|response|] == response && t5[|response|..] == Closing;
  }

  /** Different responses give different prompts for the same question and
      command: nothing of the response is lost in the template. */
  lemma FollowUpInjective(question: string, command: string, r1: string, r2: string)
    requires FollowUpPrompt(question, command, r1) == FollowUpPrompt(question, command, r2)
    ensures r1 == r2
  {
    FollowUpFieldsRoundTrip(question, command, r1);
    FollowUpFieldsRoundTrip(question, command, r2);
  }

  /** With the response truncated, the prompt is at most the question, the
      command, 6740 characters and the template. Against the 7000-character
      ceiling this leaves 98 characters for question and command together:
      a longer pair with a long response overshoots it. */
  lemma TruncatedPromptHeadroom(question: string, command: string, output: string)
    ensures |FollowUpPrompt(question, command, Truncate(output))|
            <= |question| + |command| + ResponseLimit + TemplateLength
    ensures |question| + |command| <= InputCeiling - ResponseLimit - TemplateLength
            ==> |FollowUpPrompt(question, command, Truncate(output))| <= InputCeiling
    ensures |output| >= ResponseLimit
            ==> (|FollowUpPrompt(question, command, Truncate(output))| <= InputCeiling
                 <==> |question| + |command| <= 98)
  {
    assert TemplateLength == 162;
  }
}
