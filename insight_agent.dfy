/**
 * `InsightAgent` (agents/insight_agent.py): turns a list of paper summaries
 * into one paragraph of insights, through a chat-completion client when one
 * can be obtained and through an offline fallback otherwise.
 *
 * The process environment (whether `huggingface_hub` is importable, the
 * `HUGGINGFACE_API_KEY` variable, whether `InferenceClient(...)` raises) is an
 * `Env` value, and the remote model is a function from a client and a request
 * to an `Outcome`.
 */
module Insight {
  import opened Wrappers
  import opened PyStr

  /** A chat-completion client: one handed to the constructor, or one built from the key. */
  datatype Client = Provided(id: nat) | Inference(model: string, token: string)

  /** What `_create_client` consults besides the agent itself. */
  datatype Env = Env(libraryInstalled: bool, apiKey: Option<string>, constructorSucceeds: bool)

  datatype Message = Message(role: string, content: string)

  /** The arguments of `client.chat.completions.create(...)`. */
  datatype Request = Request(model: string, messages: seq<Message>, maxTokens: nat, temperature: real)

  /** What the completion call produces: the first choice's content, or an exception. */
  datatype Outcome = Success(content: string) | Failure

  /** The agent's client after a call to `analyze`, and the string the call returns. */
  datatype Step = Step(client: Option<Client>, insight: string)

  const DefaultModel := "mistralai/Mixtral-8x7B-Instruct-v0.1"
  const NoSummaries := "No summaries provided for analysis."
  const ApiFailure := "Insight generation failed due to an API error."
  const OfflinePrefix := "Offline insights (fallback): "
  const NoContent := "No content."
  const SystemPrompt := "You are an expert AI research assistant."
  const Separator := "\n\n"
  const OfflineWindow := 800
  const MaxTokens := 300
  const Temperature := 0.7
  const PromptHead := "You are an AI research assistant.\nGiven the following research paper summaries, identify:\n- The common themes or trends\n- Differences in methodology or findings\n- Overall insights or conclusions\n\nSummaries:\n"
  const PromptTail := "\n\nProvide your insights in a concise, academic paragraph format."

  /**
   * `_create_client`: a provided client wins before anything else is looked
   * at; otherwise a client exists exactly when the library is installed, the
   * key is set and non-empty, and the constructor does not raise.
   */
  function CreateClient(provided: Option<Client>, modelName: string, env: Env): (r: Option<Client>)
    ensures provided.Some? ==> r == provided
    ensures provided.None? ==>
      (r.Some? <==> env.libraryInstalled && env.apiKey.Some? && env.apiKey.value != "" && env.constructorSucceeds)
    ensures provided.None? && r.Some? ==> r.value == Inference(modelName, env.apiKey.value)
  {
    if provided.Some? then provided
    else if !env.libraryInstalled then None
    else if env.apiKey.None? || env.apiKey.value == "" then None
    else if !env.constructorSucceeds then None
    else Some(Inference(modelName, env.apiKey.value))
  }

  /** `"\n\n".join(summaries)`. */
  function Combine(summaries: seq<string>): string {
    Join(Separator, summaries)
  }

  /** The user prompt: fixed instructions, then the combined summaries, then the closing request. */
  function UserPrompt(combined: string): (p: string)
    ensures |p| == |PromptHead| + |combined| + |PromptTail|
    ensures p[..|PromptHead|] == PromptHead
    ensures p[|PromptHead|..|PromptHead| + |combined|] == combined
    ensures p[|PromptHead| + |combined|..] == PromptTail
  {
    FramedWhole(PromptHead, combined, PromptTail);
    PromptHead + combined + PromptTail
  }

  function BuildRequest(modelName: string, combined: string): Request {
    Request(modelName, [Message("system", SystemPrompt), Message("user", UserPrompt(combined))], MaxTokens, Temperature)
  }

  /**
   * The offline fallback: the prefix, then the first 800 characters of the
   * combined text with surrounding whitespace removed, or "No content." when
   * those characters are all whitespace.
   */
  function Offline(combined: string): (r: string)
    ensures OfflinePrefix <= r
    ensures |r| <= |OfflinePrefix| + OfflineWindow
    ensures AllSpace(SliceTo(combined, OfflineWindow)) ==> r == OfflinePrefix + NoContent
    ensures !AllSpace(SliceTo(combined, OfflineWindow)) ==>
      var body := r[|OfflinePrefix|..];
      body != [] && !IsSpace(body[0]) && !IsSpace(body[|body| - 1])
      && exists lead: nat | lead + |body| <= |SliceTo(combined, OfflineWindow)| ::
        body == combined[lead..lead + |body|]
        && AllSpace(combined[..lead])
        && AllSpace(SliceTo(combined, OfflineWindow)[lead + |body|..])
  {
    var window := SliceTo(combined, OfflineWindow);
    var snippet := Strip(window);
    var r := OfflinePrefix + (if snippet != "" then snippet else NoContent);
    OfflineBody(combined, window, snippet, r);
    r
  }

  /** The non-blank snippet is a slice of the window with only whitespace around it. */
  lemma OfflineBody(combined: string, window: string, snippet: string, r: string)
    requires window == SliceTo(combined, OfflineWindow) && snippet == Strip(window)
    requires r == OfflinePrefix + (if snippet != "" then snippet else NoContent)
    ensures !AllSpace(window) ==>
      var body := r[|OfflinePrefix|..];
      body != [] && !IsSpace(body[0]) && !IsSpace(body[|body| - 1])
      && exists lead: nat | lead + |body| <= |window| ::
        body == combined[lead..lead + |body|]
        && AllSpace(combined[..lead])
        && AllSpace(window[lead + |body|..])
  {
    if !AllSpace(window) {
      AfterPrefix(OfflinePrefix, snippet, r);
      SnippetInWindow(combined, window, LeadingSpaces(window), snippet);
    }
  }

  lemma AfterPrefix(pre: string, x: string, r: string)
    requires r == pre + x
    ensures r[|pre|..] == x
  {
  }

  /** Combined text of at most 800 characters with non-space edges is returned whole after the prefix. */
  lemma OfflineShort(combined: string)
    requires 0 < |combined| <= OfflineWindow
    requires !IsSpace(combined[0]) && !IsSpace(combined[|combined| - 1])
    ensures Offline(combined) == OfflinePrefix + combined
  {
    assert SliceTo(combined, OfflineWindow) == combined;
    StripFixes(combined);
  }

  /** A slice of a prefix of `combined` is a slice of `combined` at the same place. */
  lemma SnippetInWindow(combined: string, window: string, lead: nat, body: string)
    requires window <= combined
    requires lead + |body| <= |window| && body == window[lead..lead + |body|]
    requires AllSpace(window[..lead]) && AllSpace(window[lead + |body|..])
    ensures exists lead': nat | lead' + |body| <= |window| ::
      body == combined[lead'..lead' + |body|]
      && AllSpace(combined[..lead'])
      && AllSpace(window[lead' + |body|..])
  {
    assert combined[..lead] == window[..lead];
    assert combined[lead..lead + |body|] == window[lead..lead + |body|];
  }

  /**
   * One call of `analyze` on an agent whose client is `client`: the new
   * client and the returned string. An empty list returns at once; otherwise
   * a missing client is created lazily, and a client leads to exactly one
   * completion call.
   */
  function AnalyzeStep(client: Option<Client>, provided: Option<Client>, modelName: string,
                       summaries: seq<string>, env: Env, llm: (Client, Request) -> Outcome): (s: Step)
    ensures summaries == [] ==> s == Step(client, NoSummaries)
    ensures client.Some? ==> s.client == client
    ensures client.None? && summaries != [] ==> s.client == CreateClient(provided, modelName, env)
    ensures summaries != [] && s.client.Some? ==>
      s.insight == match llm(s.client.value, BuildRequest(modelName, Combine(summaries)))
                   case Success(content) => Strip(content)
                   case Failure => ApiFailure
    ensures summaries != [] && s.client.None? ==> s.insight == Offline(Combine(summaries))
  {
    if summaries == [] then Step(client, NoSummaries)
    else
      var combined := Combine(summaries);
      var c := if client.None? then CreateClient(provided, modelName, env) else client;
      if c.Some? then
        match llm(c.value, BuildRequest(modelName, combined))
        case Success(content) => Step(c, Strip(content))
        case Failure => Step(c, ApiFailure)
      else Step(c, Offline(combined))
  }

  class InsightAgent {
    const modelName: string
    const providedClient: Option<Client>
    var client: Option<Client>

    /** A provided client is never replaced. */
    ghost predicate Valid()
      reads this
    {
      providedClient.Some? ==> client == providedClient
    }

    constructor (modelName: string := DefaultModel, client: Option<Client> := None)
      ensures this.modelName == modelName && providedClient == client && this.client == client
      ensures Valid()
    {
      this.modelName := modelName;
      providedClient := client;
      this.client := client;
    }

    /** `analyze(summaries)`. */
    method Analyze(summaries: seq<string>, env: Env, llm: (Client, Request) -> Outcome) returns (insight: string)
      requires Valid()
      modifies this
      ensures Valid()
      ensures Step(client, insight) == AnalyzeStep(old(client), providedClient, modelName, summaries, env, llm)
    {
      if summaries == [] {
        return NoSummaries;
      }
      var combined := Combine(summaries);
      if client.None? {
        client := CreateClient(providedClient, modelName, env);
      }
      if client.Some? {
        var outcome := llm(client.value, BuildRequest(modelName, combined));
        match outcome {
          case Success(content) =>
            insight := Strip(content);
          case Failure =>
            insight := ApiFailure;
        }
        return;
      }
      insight := Offline(combined);
    }
  }

  /** An empty list depends neither on the client, nor on the environment, nor on the model. */
  lemma EmptyIgnoresEverything(client: Option<Client>, provided: Option<Client>, modelName: string,
                               env1: Env, env2: Env, llm1: (Client, Request) -> Outcome, llm2: (Client, Request) -> Outcome)
    ensures AnalyzeStep(client, provided, modelName, [], env1, llm1).insight == NoSummaries
    ensures AnalyzeStep(client, provided, modelName, [], env1, llm1) == AnalyzeStep(client, provided, modelName, [], env2, llm2)
  {
  }

  /**
   * A creation that failed is attempted again on the next call: after a
   * first call that left the agent without a client, the second call's client
   * is whatever the ladder yields in the second call's environment.
   */
  lemma RetryAfterFailedCreation(provided: Option<Client>, modelName: string,
                                 first: seq<string>, second: seq<string>, env1: Env, env2: Env,
                                 llm: (Client, Request) -> Outcome)
    requires second != []
    ensures var s1 := AnalyzeStep(None, provided, modelName, first, env1, llm);
      s1.client.None? ==> AnalyzeStep(s1.client, provided, modelName, second, env2, llm).client == CreateClient(provided, modelName, env2)
  {
  }

  /**
   * Once a client exists it serves every later call, whatever the
   * environment then says.
   */
  lemma {:induction false} ClientPersists(client: Option<Client>, provided: Option<Client>, modelName: string,
                                          calls: seq<seq<string>>, envs: seq<Env>, llm: (Client, Request) -> Outcome)
    requires client.Some? && |calls| == |envs|
    ensures Run(client, provided, modelName, calls, envs, llm) == client
  {
    if calls != [] {
      ClientPersists(AnalyzeStep(client, provided, modelName, calls[0], envs[0], llm).client,
                     provided, modelName, calls[1..], envs[1..], llm);
    }
  }

  /** The agent's client after a sequence of `analyze` calls, each in its own environment. */
  function Run(client: Option<Client>, provided: Option<Client>, modelName: string,
               calls: seq<seq<string>>, envs: seq<Env>, llm: (Client, Request) -> Outcome): Option<Client>
    requires |calls| == |envs|
    decreases |calls|
  {
    if calls == [] then client
    else Run(AnalyzeStep(client, provided, modelName, calls[0], envs[0], llm).client,
             provided, modelName, calls[1..], envs[1..], llm)
  }

  /** Without the library and without a provided client, a non-empty call takes the offline exit. */
  lemma OfflineWithoutLibrary(client: Option<Client>, modelName: string, summaries: seq<string>, env: Env,
                              llm: (Client, Request) -> Outcome)
    requires summaries != [] && client.None? && !env.libraryInstalled
    ensures AnalyzeStep(client, None, modelName, summaries, env, llm) == Step(None, Offline(Combine(summaries)))
  {
  }

  /**
   * The three exits are told apart by their text: the failure marker and the
   * empty-input answer are never an offline answer, so a failed call does not
   * fall through to the fallback.
   */
  lemma ExitsDistinct(combined: string)
    ensures Offline(combined) != ApiFailure
    ensures Offline(combined) != NoSummaries
  {
    var r := Offline(combined);
    assert r[0] == OfflinePrefix[0];
  }

  /** The request: the agent's model, a system message then the user prompt, 300 tokens, temperature 0.7. */
  lemma RequestShape(modelName: string, summaries: seq<string>)
    ensures var req := BuildRequest(modelName, Combine(summaries));
      req.model == modelName && |req.messages| == 2
      && req.messages[0] == Message("system", "You are an expert AI research assistant.")
      && req.messages[1] == Message("user", UserPrompt(Combine(summaries)))
      && PromptHead <= req.messages[1].content
      && req.maxTokens == 300 && req.temperature == 0.7
  {
  }

  /**
   * The layout of `"\n\n".join(summaries)`: summary `i` sits at its offset,
   * the next summary follows after exactly one "\n\n", and the last summary
   * ends the text.
   */
  lemma CombineLayout(summaries: seq<string>, i: nat)
    requires i < |summaries|
    ensures var c, o := Combine(summaries), JoinOffset(Separator, summaries, i);
      o + |summaries[i]| <= |c| && c[o..o + |summaries[i]|] == summaries[i]
      && (i + 1 < |summaries| ==>
            JoinOffset(Separator, summaries, i + 1) == o + |summaries[i]| + 2 <= |c|
            && c[o + |summaries[i]|..JoinOffset(Separator, summaries, i + 1)] == "\n\n")
      && (i + 1 == |summaries| ==> |c| == o + |summaries[i]|)
  {
    JoinPart(Separator, summaries, i);
    if i + 1 < |summaries| {
      JoinSeparator(Separator, summaries, i);
    } else {
      JoinLength(Separator, summaries);
    }
  }

  /** The user prompt carries every summary, each at its place in the combined text. */
  lemma PromptCarriesSummary(summaries: seq<string>, i: nat)
    requires i < |summaries|
    ensures var p := UserPrompt(Combine(summaries));
      var o := |PromptHead| + JoinOffset(Separator, summaries, i);
      o + |summaries[i]| <= |p| && p[o..o + |summaries[i]|] == summaries[i]
  {
    FramedPart(PromptHead, Separator, summaries, PromptTail, i);
  }

  /** Part `i` of `parts` sits inside `head + Join(sep, parts) + tail`, shifted by the length of `head`. */
  lemma FramedPart(head: string, sep: string, parts: seq<string>, tail: string, i: nat)
    requires i < |parts|
    ensures var p := head + Join(sep, parts) + tail;
      var o := |head| + JoinOffset(sep, parts, i);
      o + |parts[i]| <= |p| && p[o..o + |parts[i]|] == parts[i]
  {
    JoinPart(sep, parts, i);
    Framed(head, Join(sep, parts), tail, JoinOffset(sep, parts, i), |parts[i]|);
  }

  /** `head + mid + tail` cut back into its three parts. */
  lemma FramedWhole(head: string, mid: string, tail: string)
    ensures var p := head + mid + tail;
      |p| == |head| + |mid| + |tail| && p[..|head|] == head
      && p[|head|..|head| + |mid|] == mid && p[|head| + |mid|..] == tail
  {
  }

  /** A slice of the middle part of `head + mid + tail`, shifted by the length of `head`. */
  lemma Framed(head: string, mid: string, tail: string, o: nat, n: nat)
    requires o + n <= |mid|
    ensures |head| + o + n <= |head + mid + tail|
    ensures (head + mid + tail)[|head| + o..|head| + o + n] == mid[o..o + n]
  {
    assert head + mid + tail == head + (mid + tail);
    SliceOfConcat(head, mid + tail, o, o + n);
  }
}
module InsightExamples {
  import opened Wrappers
  import opened PyStr
  import opened Insight

  /** A client whose completion is "  mocked insight  " yields "mocked insight". */
  lemma MockedClient(client: Client, modelName: string, summaries: seq<string>, env: Env,
                     llm: (Client, Request) -> Outcome, content: string)
    requires summaries != [] && content == "  mocked insight  "
    requires llm(client, BuildRequest(modelName, Combine(summaries))) == Success(content)
    ensures AnalyzeStep(Some(client), Some(client), modelName, summaries, env, llm).insight == "mocked insight"
  {
    MockedContent();
  }

  /** `"  mocked insight  ".strip()` is "mocked insight". */
  lemma MockedContent()
    ensures Strip("  mocked insight  ") == "mocked insight"
  {
    var pad, m := "  ", "mocked insight";
    assert "  mocked insight  " == pad + m + pad;
    assert AllSpace(pad) by { assert IsSpace(pad[0]) && IsSpace(pad[1]); }
    StripPadded(pad, m, pad);
  }

  /** Without the library, two short summaries come back joined, after the offline prefix. */
  lemma OfflineExample(summaries: seq<string>, env: Env, llm: (Client, Request) -> Outcome)
    requires summaries == ["Paper A summary.", "Paper B summary."] && !env.libraryInstalled
    ensures AnalyzeStep(None, None, DefaultModel, summaries, env, llm).insight
      == "Offline insights (fallback): " + "Paper A summary." + "\n\n" + "Paper B summary."
  {
    var a, b := summaries[0], summaries[1];
    OfflineWithoutLibrary(None, DefaultModel, summaries, env, llm);
    CombineTwo(summaries, a, b);
    OfflineOfTwo(a, b);
  }

  /** Two short summaries with non-space edges come back joined, after the offline prefix. */
  lemma OfflineOfTwo(a: string, b: string)
    requires a != [] && b != [] && |a| + |Separator| + |b| <= OfflineWindow
    requires !IsSpace(a[0]) && !IsSpace(b[|b| - 1])
    ensures Offline(a + Separator + b) == OfflinePrefix + a + Separator + b
  {
    var c := a + Separator + b;
    assert c[0] == a[0] && c[|c| - 1] == b[|b| - 1];
    OfflineShort(c);
    Assoc(OfflinePrefix, a + Separator, b);
    Assoc(OfflinePrefix, a, Separator);
  }

  lemma CombineTwo(summaries: seq<string>, a: string, b: string)
    requires summaries == [a, b]
    ensures Combine(summaries) == a + Separator + b
  {
    assert summaries[1..] == [b];
    assert Join(Separator, [b]) == b;
  }
}
