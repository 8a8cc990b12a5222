/** The local steps of one request, chained as the script runs them
    (gitlab_ai_assistant.py, lines 149-164): extract the command from the
    reply, run it, truncate what it printed, and build the follow-up prompt.
    The chat calls on either side and the shell itself are parameters. */
module Pipeline {
  import opened Text
  import opened Cdata
  import opened Extract
  import opened FollowUp

  datatype Outcome =
    | NoCommandBlock                               // `re.search` found nothing: the script raises
    | Summarise(command: string, prompt: string)   // the command run and the prompt sent next

  /** One request after the first chat reply has arrived; `shell` stands for
      running a command in the repository checkout. */
  function RunPipeline(question: string, reply: string, shell: string -> ShellRun): (o: Outcome)
    ensures o.NoCommandBlock? <==>
              !exists p: nat, q: nat :: OccursAt(reply, Open, p) && OccursAt(reply, Close, q) && p + |Open| <= q
    ensures o.Summarise? ==>
              && ExtractCommand(reply) == Some(o.command)
              && o.prompt == FollowUpPrompt(question, o.command, Truncate(CommandOutput(shell(o.command))))
  {
    CommandFoundIff(reply);
    match ExtractCommand(reply)
    case None => NoCommandBlock
    case Some(command) =>
      Summarise(command, FollowUpPrompt(question, command, Truncate(CommandOutput(shell(command)))))
  }

  /** A reply that is a single command block whose body has no `<` and no
      whitespace at its ends: the body is run verbatim, line breaks included,
      and its truncated output goes into the prompt unchanged. */
  lemma SingleBlockReply(question: string, body: string, shell: string -> ShellRun)
    requires '<' !in body && Stripped(body)
    ensures RunPipeline(question, Open + body + Close, shell)
         == Summarise(body, FollowUpPrompt(question, body, Truncate(CommandOutput(shell(body)))))
  {
    AbsentFirstChar(body, Close);
    CommandOfBlock(body);
    StripOfStripped(body);
    NoAngleNoMatch(body);
    CleanCdataWithoutMatch(body);
  }

  /** An end-to-end example: a five-line command sequence in one block is
      extracted exactly as written between the tags. */
  lemma HelloWorldScenario(shell: string -> ShellRun)
    ensures var body := "git checkout -b feature1" + "\n" + "echo hi > hello.py" + "\n"
                      + "git add hello.py" + "\n" + "git commit -m 'add hello'" + "\n"
                      + "git push origin feature1";
            RunPipeline("add a hello world script", "<command>" + body + "</command>", shell)
            == Summarise(body, FollowUpPrompt("add a hello world script", body, Truncate(CommandOutput(shell(body)))))
  {
    var first, last := "git checkout -b feature1", "git push origin feature1";
    var body := first + "\n" + "echo hi > hello.py" + "\n"
              + "git add hello.py" + "\n" + "git commit -m 'add hello'" + "\n" + last;
    assert '<' !in body;
    assert body[0] == first[0] == 'g';
    assert body[|body| - 1] == last[|last| - 1] == '1';
    SingleBlockReply("add a hello world script", body, shell);
  }
}
