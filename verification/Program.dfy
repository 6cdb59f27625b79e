/**
 * The console program: it prepares the 'resumes' table, imports the resume PDFs,
 * then answers queries read line by line until an exit line. Console input is
 * the sequence of lines 'ReadLine' would return, 'None' standing for null (end
 * of input); past the end every read is null.
 */
module Program {
  import opened Wrappers
  import opened Text
  import R = Resume
  import DbHelper
  import VectorService

  /** Empty or white space, or 'exit' once trimmed, in any letter case. */
  predicate IsExitLine(line: string)
  {
    AllWhiteSpace(line) || EqualsIgnoreCase(Trim(line), "exit")
  }

  /** The loop's break test: a null read, or a line the exit test accepts. */
  predicate Stops(line: Option<string>, isExit: string -> bool)
  {
    line.None? || isExit(line.value)
  }

  /**
   * The query lines the loop processes: those before the first stopping read,
   * as read. The program's own exit test is IsExitLine.
   */
  function ProcessedQueries(inputs: seq<Option<string>>, isExit: string -> bool): (queries: seq<string>)
    ensures |queries| <= |inputs|
  {
    if inputs == [] || Stops(inputs[0], isExit) then []
    else [inputs[0].value] + ProcessedQueries(inputs[1..], isExit)
  }

  /** Nothing after an exit line is ever processed. */
  lemma {:induction false} NothingAfterExit(before: seq<Option<string>>, exitLine: Option<string>,
                                            after: seq<Option<string>>, isExit: string -> bool)
    requires Stops(exitLine, isExit)
    ensures ProcessedQueries(before + [exitLine] + after, isExit) == ProcessedQueries(before + [exitLine], isExit)
  {
    if before != [] {
      assert (before + [exitLine] + after)[1..] == before[1..] + [exitLine] + after;
      assert (before + [exitLine])[1..] == before[1..] + [exitLine];
      NothingAfterExit(before[1..], exitLine, after, isExit);
    } else {
      assert (before + [exitLine] + after)[0] == exitLine;
    }
  }

  /** An empty or white-space line stops the loop: nothing from it on is processed. */
  lemma BlankLinesExit(line: string, rest: seq<Option<string>>)
    requires AllWhiteSpace(line)
    ensures IsExitLine(line)
    ensures ProcessedQueries([Some(line)] + rest, IsExitLine) == []
  {
  }

  /** 'exit' stops the loop in any letter case and with any white space around it. */
  lemma ExitWordExits(pre: string, word: string, post: string)
    requires AllWhiteSpace(pre) && AllWhiteSpace(post) && EqualsIgnoreCase(word, "exit")
    ensures IsExitLine(pre + word + post)
  {
    assert ToUpperAscii(word[0]) == 'E' && ToUpperAscii(word[3]) == 'T';
    TrimPadded(pre, word, post);
  }

  /**
   * A line that is not blank and does not trim to four characters is a query,
   * not an exit line: 'exits', 'exit now' or ' x ' are answered.
   */
  lemma LongerWordIsQuery(line: string)
    requires !AllWhiteSpace(line) && |Trim(line)| != 4
    ensures !IsExitLine(line)
  {
  }

  /** A word of any length but four, with white space around it, is a query. */
  lemma PaddedWordIsQuery(pre: string, word: string, post: string)
    requires AllWhiteSpace(pre) && AllWhiteSpace(post)
    requires word != [] && !IsWhiteSpace(word[0]) && !IsWhiteSpace(word[|word| - 1]) && |word| != 4
    ensures !IsExitLine(pre + word + post)
  {
    TrimPadded(pre, word, post);
    assert !IsWhiteSpace((pre + word + post)[|pre|]);
  }

  /** Console.ReadLine over the given input: the next line, or null past its end. */
  function ReadLine(inputs: seq<Option<string>>, next: nat): (line: Option<string>)
    ensures next >= |inputs| ==> line.None?
    ensures next < |inputs| ==> line == inputs[next]
  {
    if next < |inputs| then inputs[next] else None
  }

  /**
   * 'queries' are the lines read, in order, before the first stopping read, and
   * the read after them stops the loop.
   */
  predicate ReadUntilExit(inputs: seq<Option<string>>, queries: seq<string>, isExit: string -> bool)
  {
    && |queries| <= |inputs|
    && (forall i :: 0 <= i < |queries| ==> inputs[i] == Some(queries[i]) && !isExit(queries[i]))
    && Stops(ReadLine(inputs, |queries|), isExit)
  }

  /** The lines read until an exit line are exactly ProcessedQueries. */
  lemma {:induction false} ProcessedQueriesUnique(inputs: seq<Option<string>>, queries: seq<string>,
                                                  isExit: string -> bool)
    requires ReadUntilExit(inputs, queries, isExit)
    ensures queries == ProcessedQueries(inputs, isExit)
  {
    if queries != [] {
      assert ReadLine(inputs[1..], |queries[1..]|) == ReadLine(inputs, |queries|);
      assert ReadUntilExit(inputs[1..], queries[1..], isExit);
      ProcessedQueriesUnique(inputs[1..], queries[1..], isExit);
    }
  }

  /** ProcessedQueries are the lines read until an exit line. */
  lemma {:induction false} ProcessedQueriesReadUntilExit(inputs: seq<Option<string>>, isExit: string -> bool)
    ensures ReadUntilExit(inputs, ProcessedQueries(inputs, isExit), isExit)
  {
    if inputs != [] && !Stops(inputs[0], isExit) {
      ProcessedQueriesReadUntilExit(inputs[1..], isExit);
      var queries := ProcessedQueries(inputs, isExit);
      assert queries[1..] == ProcessedQueries(inputs[1..], isExit);
      assert ReadLine(inputs[1..], |queries| - 1) == ReadLine(inputs, |queries|);
    }
  }

  /**
   * Lines read before a stopping read, none of them an exit line, are the
   * first processed queries.
   */
  lemma {:induction false} ProcessedQueriesPrefix(inputs: seq<Option<string>>, queries: seq<string>,
                                                  isExit: string -> bool)
    requires |queries| <= |inputs|
    requires forall i :: 0 <= i < |queries| ==> inputs[i] == Some(queries[i]) && !isExit(queries[i])
    ensures |queries| <= |ProcessedQueries(inputs, isExit)|
    ensures queries == ProcessedQueries(inputs, isExit)[..|queries|]
  {
    if queries != [] {
      ProcessedQueriesPrefix(inputs[1..], queries[1..], isExit);
    }
  }

  /** What the program did, in order. */
  datatype Step =
    | CreateResumeTable
    | ClearResumes(deleted: nat)
    | BuildKernel
    | ImportResumes(directory: string)
    | Answer(query: string, output: seq<string>)

  /** Directory the resume PDFs are imported from. */
  const ResumeDirectory := "Assets/Resumes"

  /** A query's outcome: the lines written for it, or the exception that escapes GetResponseAsync. */
  type Respond = string -> Result<seq<string>>

  /** GetResponseAsync over the given rows of the 'resumes' table and the given model calls. */
  function Responder(rows: seq<DbHelper.ResumeRow>, complete: string -> Call<string>, embed: string -> Call<seq<real>>,
                     search: VectorService.Search, showScore: real -> string, answer: string -> Call<string>): Respond
  {
    (query: string) => VectorService.Response(rows, query, complete, embed, search, showScore, answer)
  }

  /** The outcome of each of the given queries. */
  function Responses(queries: seq<string>, respond: Respond): (rs: seq<Result<seq<string>>>)
    ensures |rs| == |queries| && forall i :: 0 <= i < |queries| ==> rs[i] == respond(queries[i])
  {
    seq(|queries|, i requires 0 <= i < |queries| => respond(queries[i]))
  }

  /** The answer steps for queries that were all answered: one per query, in order, with the lines written for it. */
  function AnswerSteps(queries: seq<string>, respond: Respond): (steps: seq<Step>)
    requires forall i :: 0 <= i < |queries| ==> respond(queries[i]).Success?
    ensures |steps| == |queries|
    ensures forall i :: 0 <= i < |queries| ==> steps[i] == Answer(queries[i], respond(queries[i]).value)
  {
    if queries == [] then []
    else
      var last := queries[|queries| - 1];
      AnswerSteps(queries[..|queries| - 1], respond) + [Answer(last, respond(last).value)]
  }

  /**
   * What the query loop does with the given input: the queries it processes
   * are answered in order until the first one whose response raises, which
   * ends the program with that error.
   */
  predicate LoopDid(inputs: seq<Option<string>>, isExit: string -> bool, respond: Respond, answered: seq<string>,
                    answers: seq<Step>, o: Outcome)
  {
    var rs := Responses(ProcessedQueries(inputs, isExit), respond);
    && o == Through(rs)
    && answered == ProcessedQueries(inputs, isExit)[..FirstFailure(rs)]
    && answers == AnswerSteps(answered, respond)
  }

  /** A loop that has answered every query before a stopping read has done all it will. */
  lemma LoopEndsAtExit(inputs: seq<Option<string>>, isExit: string -> bool, respond: Respond, answered: seq<string>)
    requires ReadUntilExit(inputs, answered, isExit)
    requires forall i :: 0 <= i < |answered| ==> respond(answered[i]).Success?
    ensures LoopDid(inputs, isExit, respond, answered, AnswerSteps(answered, respond), Pass)
  {
    ProcessedQueriesUnique(inputs, answered, isExit);
    FirstFailureIs(Responses(answered, respond), |answered|);
    assert answered[..|answered|] == answered;
  }

  /** A loop whose next query raises ends with that error, having answered the queries before it. */
  lemma LoopEndsAtFailure(inputs: seq<Option<string>>, isExit: string -> bool, respond: Respond,
                          answered: seq<string>, query: string)
    requires |answered| < |inputs| && inputs[|answered|] == Some(query) && !isExit(query)
    requires forall i :: 0 <= i < |answered| ==>
               inputs[i] == Some(answered[i]) && !isExit(answered[i]) && respond(answered[i]).Success?
    requires respond(query).Failure?
    ensures LoopDid(inputs, isExit, respond, answered, AnswerSteps(answered, respond), Fail(respond(query).error))
  {
    var next := answered + [query];
    assert forall i :: 0 <= i < |next| ==> inputs[i] == Some(next[i]) && !isExit(next[i]) by {
      forall i | 0 <= i < |next|
        ensures inputs[i] == Some(next[i]) && !isExit(next[i])
      {
        if i < |answered| {
          assert next[i] == answered[i];
        }
      }
    }
    ProcessedQueriesPrefix(inputs, next, isExit);
    var qs := ProcessedQueries(inputs, isExit);
    assert qs[..|answered|] == answered by {
      assert qs[..|answered|] == next[..|answered|];
    }
    assert qs[|answered|] == query by {
      assert qs[|answered|] == next[|answered|];
    }
    var rs := Responses(qs, respond);
    forall k | 0 <= k < |answered|
      ensures rs[k].Success?
    {
      assert qs[k] == qs[..|answered|][k];
    }
    FirstFailureIs(rs, |answered|);
  }

  /**
   * The query loop: read, stop at a null read or an exit line, otherwise answer
   * the line as read. 'respond' is GetResponseAsync (Responder, in Run); an
   * exception that escapes it ends the loop, and the program, with it. The
   * program's own exit test is IsExitLine.
   */
  method QueryLoop(inputs: seq<Option<string>>, isExit: string -> bool, respond: Respond)
    returns (answered: seq<string>, answers: seq<Step>, o: Outcome)
    ensures LoopDid(inputs, isExit, respond, answered, answers, o)
    ensures o.Pass? ==> ReadUntilExit(inputs, answered, isExit)
  {
    answered, answers := [], [];
    while true
      invariant |answered| <= |inputs|
      invariant forall i :: 0 <= i < |answered| ==>
                  inputs[i] == Some(answered[i]) && !isExit(answered[i]) && respond(answered[i]).Success?
      invariant answers == AnswerSteps(answered, respond)
      decreases |inputs| - |answered|
    {
      var query := ReadLine(inputs, |answered|);
      if query.None? || isExit(query.value) {
        break;
      }
      var output := respond(query.value);
      if output.Failure? {
        LoopEndsAtFailure(inputs, isExit, respond, answered, query.value);
        return answered, answers, Fail(output.error);
      }
      assert (answered + [query.value])[..|answered|] == answered;
      answered, answers := answered + [query.value], answers + [Answer(query.value, output.value)];
    }
    LoopEndsAtExit(inputs, isExit, respond, answered);
    o := Pass;
  }

  /**
   * RunAsync: the 'resumes' table is created and cleared, the kernel built and
   * the resume PDFs imported into the table before the first query; an import
   * that fails ends the program. Then the query loop answers over the imported
   * rows until an exit line, the end of input or a response that raises.
   */
  method Run(table: DbHelper.ResumesTable, files: seq<VectorService.PdfFile>, split: VectorService.Chunker,
             embed: string -> Call<seq<real>>, hashes: nat -> R.Int32, inputs: seq<Option<string>>,
             complete: string -> Call<string>, search: VectorService.Search, showScore: real -> string,
             answer: string -> Call<string>)
    returns (steps: seq<Step>, o: Outcome)
    requires table.Valid()
    modifies table
    ensures table.Valid()
    ensures table.rows == DbHelper.UpsertAll([], VectorService.ImportedRecords(files, VectorService.FileChunks(split), embed, hashes))
    ensures var startup := [CreateResumeTable, ClearResumes(|old(table.rows)|), BuildKernel, ImportResumes(ResumeDirectory)];
            var imported := VectorService.ImportOutcome(files, VectorService.FileChunks(split), embed, hashes);
            && (imported.Fail? ==> o == imported && steps == startup)
            && (imported.Pass? ==>
                  exists answered, answers ::
                    && LoopDid(inputs, IsExitLine, Responder(table.rows, complete, embed, search, showScore, answer), answered, answers, o)
                    && steps == startup + answers)
  {
    var deleted := table.DeleteResumeEmbeddings();
    steps := [CreateResumeTable, ClearResumes(deleted), BuildKernel, ImportResumes(ResumeDirectory)];
    o := VectorService.ImportResumes(table, files, split, embed, hashes);
    if o.Fail? {
      return;
    }
    var answered, answers;
    answered, answers, o := QueryLoop(inputs, IsExitLine, Responder(table.rows, complete, embed, search, showScore, answer));
    steps := steps + answers;
  }
}
