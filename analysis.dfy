/**
 * What one press of the "Analyser la situation" button does: the guard that
 * decides between a warning, an error, the local retrieval pipeline and the
 * hosted-API placeholder, and, on the local path, the prompt built and the
 * answer text kept.
 */
module Analysis {
  import opened Wrappers
  import opened Text
  import opened Document
  import opened Retrieval
  import opened Prompting

  /** The two entries of the sidebar's mode selector. */
  datatype Mode = OfflineDemo | OpenAiApi

  /** Which branch the analysis block takes. */
  datatype Decision =
    | Idle             // the button was not pressed
    | WarnEmptyQuery   // the query is empty once stripped
    | ErrorNoDocument  // offline mode without document text
    | LocalRag         // the local retrieval pipeline runs
    | RemoteApi        // the hosted-API branch, which holds no code

  /** The guard of the analysis block, in the order the source tests it. */
  function Decide(pressed: bool, query: string, mode: Mode, pdfText: string): (d: Decision)
    ensures d == Idle <==> !pressed
    ensures d == WarnEmptyQuery <==> pressed && IsBlank(query)
    ensures d == ErrorNoDocument <==> pressed && !IsBlank(query) && mode == OfflineDemo && pdfText == ""
    ensures d == LocalRag <==> pressed && !IsBlank(query) && mode == OfflineDemo && pdfText != ""
    ensures d == RemoteApi <==> pressed && !IsBlank(query) && mode.OpenAiApi?
  {
    StripEmptyIffBlank(query);
    if !pressed then Idle
    else if Strip(query) == "" then WarnEmptyQuery
    else if mode.OfflineDemo? then
      if pdfText == "" then ErrorNoDocument else LocalRag
    else RemoteApi
  }

  /**
   * What the press produced: the branch taken, the prompt sent to the
   * generator (only on the local path) and `result_text`.
   */
  datatype Outcome = Outcome(decision: Decision, prompt: Option<string>, resultText: string)

  /**
   * The analysis block. The parts that are foreign calls are parameters:
   * `chunks` is what the text splitter made of `pdfText`, `hits` what the
   * index search returned for the query (ids and scores zipped, best first),
   * `scoreLabel` the two-decimal score rendering, `generate` the text
   * generator. On the local path the search returns at least one row and
   * every id it returns names a chunk.
   */
  function Analyse(pressed: bool, query: string, mode: Mode, pdfText: string,
                   chunks: seq<string>, hits: seq<Hit>,
                   scoreLabel: real -> string, generate: string -> string): (r: Outcome)
    requires Decide(pressed, query, mode, pdfText) == LocalRag ==> |hits| > 0 && ValidIds(hits, chunks)
    ensures r.decision == Decide(pressed, query, mode, pdfText)
    ensures r.decision != LocalRag ==> r.prompt == None && r.resultText == ""
    ensures r.decision == LocalRag ==>
      && ValidIds(Select(hits), chunks)
      && r.prompt == Some(Prompt(query, Context(scoreLabel, chunks, Select(hits))))
      && r.resultText == Strip(generate(r.prompt.value))
  {
    var d := Decide(pressed, query, mode, pdfText);
    if d == LocalRag then
      var candidates := Select(hits);
      assert ValidIds(candidates, chunks) by {
        SubsequenceMembers(candidates, hits);
        forall i | 0 <= i < |candidates| ensures candidates[i].id < |chunks| {
          assert candidates[i] in hits;
        }
      }
      var context := Context(scoreLabel, chunks, candidates);
      var prompt := Prompt(query, context);
      Outcome(d, Some(prompt), Strip(generate(prompt)))
    else
      Outcome(d, None, "")
  }

  /**
   * On the local path the prompt is exactly the template around the query
   * and the context of the selected hits, and that context is never empty:
   * it opens with the entry of the first selected hit, which is the best hit
   * when none reaches the threshold.
   */
  lemma LocalPromptIsGrounded(pressed: bool, query: string, mode: Mode, pdfText: string,
                              chunks: seq<string>, hits: seq<Hit>,
                              scoreLabel: real -> string, generate: string -> string)
    requires Decide(pressed, query, mode, pdfText) == LocalRag
    requires |hits| > 0 && ValidIds(hits, chunks)
    ensures var r := Analyse(pressed, query, mode, pdfText, chunks, hits, scoreLabel, generate);
      var selected := Select(hits);
      && ValidIds(selected, chunks)
      && r.prompt == Some(Prompt(query, Context(scoreLabel, chunks, selected)))
      && (!AnyPasses(hits) ==>
            Context(scoreLabel, chunks, selected)
              == "[Score " + scoreLabel(hits[0].score) + "] " + chunks[hits[0].id])
      && var e := Entry(scoreLabel, chunks, selected[0]);
         |e| <= |Context(scoreLabel, chunks, selected)| && Context(scoreLabel, chunks, selected)[..|e|] == e
  {
    var selected := Select(hits);
    SubsequenceMembers(selected, hits);
    assert ValidIds(selected, chunks) by {
      forall i | 0 <= i < |selected| ensures selected[i].id < |chunks| {
        assert selected[i] in hits;
      }
    }
    if !AnyPasses(hits) {
      ContextOfOne(scoreLabel, chunks, hits[0]);
    }
    ContextStartsWithFirstEntry(scoreLabel, chunks, selected);
  }

  /**
   * A blank query only warns, whatever the mode and the document; offline
   * mode without document text only reports the error. In both cases no
   * prompt is built and `result_text` stays empty.
   */
  lemma GuardStopsEarly(query: string, mode: Mode, pdfText: string,
                        chunks: seq<string>, hits: seq<Hit>,
                        scoreLabel: real -> string, generate: string -> string)
    requires Strip(query) == "" || (mode == OfflineDemo && pdfText == "")
    ensures var r := Analyse(true, query, mode, pdfText, chunks, hits, scoreLabel, generate);
      && r.decision == (if IsBlank(query) then WarnEmptyQuery else ErrorNoDocument)
      && r.prompt == None
      && r.resultText == ""
  {
    StripEmptyIffBlank(query);
  }

  /**
   * Offline mode with no file, or with a file that could not be read, always
   * stops at the error for a query with content: the text it would analyse
   * is empty.
   */
  lemma NoReadableUploadIsNoDocument(upload: Upload, query: string)
    requires !upload.Readable? && Strip(query) != ""
    ensures Decide(true, query, OfflineDemo, Load(upload).text) == ErrorNoDocument
  {
    StripEmptyIffBlank(query);
  }

  /**
   * Once the query has content the mode picks the branch: the hosted-API
   * branch in API mode whatever the document, the local pipeline in offline
   * mode whenever there is document text.
   */
  lemma ModeDecidesBranch(query: string, pdfText: string)
    requires Strip(query) != ""
    ensures Decide(true, query, OpenAiApi, pdfText) == RemoteApi
    ensures pdfText != "" ==> Decide(true, query, OfflineDemo, pdfText) == LocalRag
  {
    StripEmptyIffBlank(query);
  }

  /**
   * Two pages without a text layer give the text "\n", which is not empty, so
   * offline mode takes the local path for it with any query that has content.
   */
  lemma TextlessPagesPassGuard(query: string)
    requires Strip(query) != ""
    ensures DocumentText([None, None]) == "\n"
    ensures Decide(true, query, OfflineDemo, DocumentText([None, None])) == LocalRag
  {
    assert PageTexts([None, None]) == ["", ""];
    StripEmptyIffBlank(query);
  }
}
