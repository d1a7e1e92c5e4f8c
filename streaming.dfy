/**
  The streaming assembler: the loop that adds each streamed chunk's
  `delta.get('content', '')` to `assistant_response` and redisplays it.
*/
module Streaming {
  import opened Common

  /** The content carried by one streamed chunk. `Missing` is a delta with no
      `content` key, which counts as `""`; `Malformed` is a chunk on which
      the lookup or the `+=` raises (no choices, or content that is not a
      string, such as an explicit null). */
  datatype Chunk = Missing | Text(text: string) | Malformed

  /** The language-model stream: the chunks it yields, and whether iterating
      it raises after the last of them (a failed request or a broken
      connection). */
  datatype Stream = Stream(chunks: seq<Chunk>, broken: bool)

  /** `assistant_response` after the loop has consumed `chunks`, or `None`
      when one of them raised. */
  function Accumulated(chunks: seq<Chunk>): (r: Option<string>)
    ensures r.None? <==> exists k :: 0 <= k < |chunks| && chunks[k].Malformed?
  {
    if chunks == [] then Some("")
    else
      match Accumulated(chunks[..|chunks| - 1])
      case None => None
      case Some(response) =>
        match chunks[|chunks| - 1]
        case Missing => Some(response)
        case Text(t) => Some(response + t)
        case Malformed => None
  }

  /** One more chunk: the loop body. */
  lemma AccumulatedSnoc(chunks: seq<Chunk>, c: Chunk)
    ensures Accumulated(chunks + [c]) ==
      match Accumulated(chunks)
      case None => None
      case Some(response) =>
        match c
        case Missing => Some(response)
        case Text(t) => Some(response + t)
        case Malformed => None
  {
  }

  predicate AllWellFormed(chunks: seq<Chunk>)
  {
    forall k :: 0 <= k < |chunks| ==> !chunks[k].Malformed?
  }

  /** The text one well-formed chunk contributes. */
  function Piece(c: Chunk): string
    requires !c.Malformed?
  {
    if c.Text? then c.text else ""
  }

  /** The in-order concatenation of the chunks' contents. */
  function Concatenation(chunks: seq<Chunk>): string
    requires AllWellFormed(chunks)
  {
    if chunks == [] then "" else Piece(chunks[0]) + Concatenation(chunks[1..])
  }

  lemma {:induction false} ConcatenationSnoc(chunks: seq<Chunk>, c: Chunk)
    requires AllWellFormed(chunks) && !c.Malformed?
    ensures AllWellFormed(chunks + [c])
    ensures Concatenation(chunks + [c]) == Concatenation(chunks) + Piece(c)
  {
    if chunks != [] {
      assert (chunks + [c])[1..] == chunks[1..] + [c];
      ConcatenationSnoc(chunks[1..], c);
    }
  }

  /** The loop succeeds exactly when no chunk is malformed, and then the
      response is the concatenation of all contents, absent ones as `""`. */
  lemma {:induction false} AccumulatedIsConcatenation(chunks: seq<Chunk>)
    ensures Accumulated(chunks).Some? <==> AllWellFormed(chunks)
    ensures Accumulated(chunks).Some? ==> Accumulated(chunks).value == Concatenation(chunks)
    decreases |chunks|
  {
    if chunks != [] {
      var init, last := chunks[..|chunks| - 1], chunks[|chunks| - 1];
      assert chunks == init + [last];
      AccumulatedIsConcatenation(init);
      if AllWellFormed(init) && !last.Malformed? {
        ConcatenationSnoc(init, last);
      }
    }
  }

  /** Every value shown during a successful loop is a prefix of the final
      response. */
  lemma {:induction false} AccumulatedPrefix(chunks: seq<Chunk>, i: nat)
    requires i <= |chunks| && Accumulated(chunks).Some?
    ensures Accumulated(chunks[..i]).Some?
    ensures Accumulated(chunks[..i]).value <= Accumulated(chunks).value
    decreases |chunks| - i
  {
    if i < |chunks| {
      var init := chunks[..|chunks| - 1];
      assert init[..i] == chunks[..i];
      AccumulatedPrefix(init, i);
    } else {
      assert chunks[..i] == chunks;
    }
  }

  /** Once a chunk has raised, the loop cannot recover. */
  lemma {:induction false} AccumulatedStaysFailed(chunks: seq<Chunk>, i: nat)
    requires i <= |chunks| && Accumulated(chunks[..i]).None?
    ensures Accumulated(chunks).None?
    decreases |chunks| - i
  {
    if i < |chunks| {
      assert chunks[..i + 1][..i] == chunks[..i];
      AccumulatedStaysFailed(chunks, i + 1);
    } else {
      assert chunks[..i] == chunks;
    }
  }

  /** The `for chunk in response` loop. `response` is the final text, or
      `None` when the stream or a chunk raised; `shown` lists the values
      passed to the display, one per chunk consumed. */
  method Assemble(stream: Stream) returns (response: Option<string>, shown: seq<string>)
    ensures response == if stream.broken then None else Accumulated(stream.chunks)
    ensures |shown| <= |stream.chunks|
    ensures forall k :: 0 <= k < |shown| ==> Accumulated(stream.chunks[..k + 1]) == Some(shown[k])
    ensures |shown| < |stream.chunks| ==> stream.chunks[|shown|].Malformed?
    ensures response.Some? ==>
      |shown| == |stream.chunks| && forall k :: 0 <= k < |shown| ==> shown[k] <= response.value
  {
    var chunks := stream.chunks;
    var text := "";
    shown := [];
    var i := 0;
    while i < |chunks|
      invariant 0 <= i <= |chunks| && |shown| == i
      invariant Accumulated(chunks[..i]) == Some(text)
      invariant forall k :: 0 <= k < i ==> Accumulated(chunks[..k + 1]) == Some(shown[k])
    {
      var chunk := chunks[i];
      assert chunks[..i + 1] == chunks[..i] + [chunk];
      AccumulatedSnoc(chunks[..i], chunk);
      if chunk.Malformed? {
        AccumulatedStaysFailed(chunks, i + 1);
        return None, shown;
      }
      var piece := if chunk.Text? then chunk.text else "";
      assert chunk.Missing? ==> text + piece == text;
      text := text + piece;
      shown := shown + [text];
      i := i + 1;
    }
    assert chunks[..i] == chunks;
    if stream.broken {
      return None, shown;
    }
    response := Some(text);
    forall k | 0 <= k < |shown|
      ensures shown[k] <= text
    {
      AccumulatedPrefix(chunks, k + 1);
    }
  }
}
