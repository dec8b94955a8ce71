/** summarize_file (yt-video-summary.py:101-125) with the two calls it makes to
    the language-model service, summarize_chunk (:67-81) and rewrite_text
    (:84-99). Each call adds the token count the service reports to the global
    counter `total_tokens` (:14). The service is a parameter: a function from the
    user message of a request to its reply. */
module Summarizer {
  import opened Text
  import opened Flattening
  import opened Chunking

  /** What the service returns for one request: the message content and the
      reported `usage.total_tokens`. */
  datatype Reply = Reply(content: string, tokens: nat)

  /** One request to the service, as the script announces it: a numbered chunk
      summary, or the final rewrite. */
  datatype Request = SummarizeRequest(count: nat, chunk: string) | RewriteRequest(text: string)

  /** The user message rewrite_text sends. */
  function RewritePrompt(text: string): string
  {
    "Please provide a brief summary of this video:\n" + text + "\n"
  }

  /** The user message a request carries: the chunk itself, or the rewrite prompt. */
  function UserMessage(req: Request): string
  {
    match req
    case SummarizeRequest(_, chunk) => chunk
    case RewriteRequest(text) => RewritePrompt(text)
  }

  /** The sum of the token counts the service reports for `reqs`. */
  function TokensUsed(service: string -> Reply, reqs: seq<Request>): nat
  {
    if reqs == [] then 0
    else TokensUsed(service, reqs[..|reqs| - 1]) + service(UserMessage(reqs[|reqs| - 1])).tokens
  }

  /** Token counts add up over consecutive runs of requests. */
  lemma {:induction false} TokensUsedConcat(service: string -> Reply, a: seq<Request>, b: seq<Request>)
    ensures TokensUsed(service, a + b) == TokensUsed(service, a) + TokensUsed(service, b)
    decreases |b|
  {
    if b == [] {
      assert a + b == a;
    } else {
      var init := b[..|b| - 1];
      assert (a + b)[..|a + b| - 1] == a + init;
      assert (a + b)[|a + b| - 1] == b[|b| - 1];
      TokensUsedConcat(service, a, init);
    }
  }

  /** The requests the loop of summarize_file makes for `chunks`. */
  function ChunkRequests(chunks: seq<string>): seq<Request>
  {
    if chunks == [] then []
    else ChunkRequests(chunks[..|chunks| - 1]) + [SummarizeRequest(|chunks|, chunks[|chunks| - 1])]
  }

  /** summarize_file asks for one summary per chunk, in chunk order, numbered
      1 to k, and then for exactly one rewrite. */
  lemma {:induction false} ChunkRequestsAt(chunks: seq<string>, joined: string)
    ensures var reqs := ChunkRequests(chunks) + [RewriteRequest(joined)];
      && |reqs| == |chunks| + 1
      && (forall i :: 0 <= i < |chunks| ==> reqs[i] == SummarizeRequest(i + 1, chunks[i]))
      && reqs[|chunks|] == RewriteRequest(joined)
    decreases |chunks|
  {
    if chunks != [] {
      var init := chunks[..|chunks| - 1];
      ChunkRequestsAt(init, joined);
      assert forall i :: 0 <= i < |init| ==> ChunkRequests(init)[i] == (ChunkRequests(init) + [RewriteRequest(joined)])[i];
    }
  }

  /** The chunk summaries, each reply stripped of surrounding whitespace. */
  function Summaries(service: string -> Reply, chunks: seq<string>): seq<string>
  {
    if chunks == [] then []
    else Summaries(service, chunks[..|chunks| - 1]) + [Strip(service(chunks[|chunks| - 1]).content)]
  }

  /** The `i`-th summary is the stripped reply to the `i`-th chunk. */
  lemma {:induction false} SummariesAt(service: string -> Reply, chunks: seq<string>)
    ensures |Summaries(service, chunks)| == |chunks|
    ensures forall i :: 0 <= i < |chunks| ==> Summaries(service, chunks)[i] == Strip(service(chunks[i]).content)
    decreases |chunks|
  {
    if chunks != [] {
      SummariesAt(service, chunks[..|chunks| - 1]);
    }
  }

  /** One more turn of the loop of summarize_file: one more summary, one more request. */
  lemma LoopStep(service: string -> Reply, chunks: seq<string>, i: nat)
    requires i < |chunks|
    ensures Summaries(service, chunks[..i + 1]) == Summaries(service, chunks[..i]) + [Strip(service(chunks[i]).content)]
    ensures ChunkRequests(chunks[..i + 1]) == ChunkRequests(chunks[..i]) + [SummarizeRequest(i + 1, chunks[i])]
  {
    assert chunks[..i + 1][..i] == chunks[..i];
  }

  /** The chunks summarize_file works on: those of the flattened text, none for a
      negative size (an empty `range`). */
  function FileChunks(text: string, chunkSize: int): seq<string>
  {
    if chunkSize > 0 then Chunks(Flatten(text), chunkSize) else []
  }

  /** The script's global state, with the service it talks to. */
  class Session {
    /** The language-model service. */
    const service: string -> Reply
    /** The global `total_tokens`. */
    var totalTokens: nat
    /** Every request sent so far, in order. */
    ghost var requests: seq<Request>

    /** `total_tokens` is the sum of the counts reported for every request made. */
    ghost predicate Valid()
      reads this
    {
      totalTokens == TokensUsed(service, requests)
    }

    /** The state when the script starts: `total_tokens = 0`. */
    constructor (service: string -> Reply)
      ensures Valid() && this.service == service
      ensures totalTokens == 0 && requests == []
    {
      this.service := service;
      totalTokens := 0;
      requests := [];
    }

    /** summarize_chunk: one request with the chunk as the user message. */
    method SummarizeChunk(chunk: string, count: nat) returns (summary: string)
      requires Valid()
      modifies this
      ensures Valid()
      ensures requests == old(requests) + [SummarizeRequest(count, chunk)]
      ensures totalTokens == old(totalTokens) + service(chunk).tokens
      ensures summary == Strip(service(chunk).content)
    {
      var reply := service(chunk);
      totalTokens := totalTokens + reply.tokens;
      requests := requests + [SummarizeRequest(count, chunk)];
      summary := Strip(reply.content);
    }

    /** rewrite_text: one request asking for a brief summary of `text`. */
    method RewriteText(text: string) returns (rewritten: string)
      requires Valid()
      modifies this
      ensures Valid()
      ensures requests == old(requests) + [RewriteRequest(text)]
      ensures totalTokens == old(totalTokens) + service(RewritePrompt(text)).tokens
      ensures rewritten == Strip(service(RewritePrompt(text)).content)
    {
      var reply := service(RewritePrompt(text));
      totalTokens := totalTokens + reply.tokens;
      requests := requests + [RewriteRequest(text)];
      rewritten := Strip(reply.content);
    }

    /** The loop of summarize_file: one summary request per chunk, numbered
        from 1, the stripped replies collected in chunk order. */
    method SummarizeChunks(chunks: seq<string>) returns (summaries: seq<string>)
      requires Valid()
      modifies this
      ensures Valid()
      ensures summaries == Summaries(service, chunks)
      ensures requests == old(requests) + ChunkRequests(chunks)
    {
      ghost var before := requests;
      summaries := [];
      var i := 0;
      while i < |chunks|
        invariant 0 <= i <= |chunks|
        invariant Valid()
        invariant summaries == Summaries(service, chunks[..i])
        invariant requests == before + ChunkRequests(chunks[..i])
      {
        LoopStep(service, chunks, i);
        var summary := SummarizeChunk(chunks[i], i + 1);
        summaries := summaries + [summary];
        i := i + 1;
      }
      assert chunks[..i] == chunks;
    }

    /** summarize_file: flatten the text, cut it into chunks, summarise every
        chunk in order, join the summaries with single spaces, ask for one
        rewrite of the result, and wrap it (`fill` stands for
        `textwrap.fill(·, width=80)`). A zero chunk size aborts with the
        ValueError of chunk_text before any request. */
    method SummarizeFile(text: string, chunkSize: int, fill: string -> string) returns (r: Result<string>)
      requires Valid()
      modifies this
      ensures Valid()
      ensures chunkSize == 0 ==> r == RangeStepZero && requests == old(requests) && totalTokens == old(totalTokens)
      ensures chunkSize != 0 ==>
        var chunks := FileChunks(text, chunkSize);
        var joined := Join(Summaries(service, chunks), " ");
        var made := ChunkRequests(chunks) + [RewriteRequest(joined)];
        && requests == old(requests) + made
        && totalTokens == old(totalTokens) + TokensUsed(service, made)
        && r == Ok(Strip(fill(Strip(service(RewritePrompt(joined)).content))))
    {
      ghost var before := requests;
      var flat := Flatten(text);
      var chunked := ChunkText(flat, chunkSize);
      if chunked.RangeStepZero? {
        return RangeStepZero;
      }
      var chunks := chunked.value;
      assert chunks == FileChunks(text, chunkSize);
      var summaries := SummarizeChunks(chunks);
      var joined := Join(summaries, " ");
      var rewritten := RewriteText(joined);
      assert requests == before + (ChunkRequests(chunks) + [RewriteRequest(joined)]);
      TokensUsedConcat(service, before, ChunkRequests(chunks) + [RewriteRequest(joined)]);
      r := Ok(Strip(fill(rewritten)));
    }
  }
}
