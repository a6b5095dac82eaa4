/**
 * The StreamingResponseWriter: the status line and headers are committed
 * once, on the first WriteHeader, Flush or Close; written bytes wait in a
 * buffer until Flush moves them into the body pipe (the sink); Close
 * flushes and closes the pipe.
 */
module Streaming {
  import opened Results
  import opened GoStrings
  import opened Headers
  import TextProto

  /** The events.LambdaFunctionURLStreamingResponse fields the writer fills in. */
  datatype StreamingResponse = StreamingResponse(statusCode: int, headers: map<string, string>, cookies: seq<string>)

  /**
   * The writer's state: the pending buffer, the handler's header map,
   * whether the header was committed, the committed response, the bytes
   * delivered to the pipe, and whether the pipe is closed.
   */
  datatype StreamWriter = StreamWriter(
    buf: seq<byte>,
    header: Header,
    committed: bool,
    resp: StreamingResponse,
    sink: seq<byte>,
    closed: bool)

  /** NewStreamingResponseWriter: nothing buffered or committed, status 200 until told otherwise. */
  function NewStreamWriter(): (w: StreamWriter)
    ensures !w.committed && !w.closed && w.buf == [] && w.sink == []
    ensures w.resp.statusCode == 200
  {
    StreamWriter([], map[], false, StreamingResponse(200, map[], []), [], false)
  }

  /** The committed header map: every key but Set-Cookie, its values joined by ",". */
  function CommittedHeaders(h: Header): (m: map<string, string>)
    ensures m.Keys == h.Keys - {"Set-Cookie"}
    ensures forall k :: k in m ==> m[k] == Join(h[k], ",")
  {
    map k | k in h && k != "Set-Cookie" :: Join(h[k], ",")
  }

  /**
   * WriteHeader: only the first call does anything; it records the code,
   * the joined headers, and the Set-Cookie values as the cookies.
   */
  function WriteHeader(w: StreamWriter, code: int): (w': StreamWriter)
    ensures w.committed ==> w' == w
    ensures !w.committed ==>
      && w'.committed
      && w'.resp.statusCode == code
      && w'.resp.headers == CommittedHeaders(w.header)
      && w'.resp.cookies == (if "Set-Cookie" in w.header then w.header["Set-Cookie"] else w.resp.cookies)
      && w'.buf == w.buf && w'.sink == w.sink && w'.header == w.header && w'.closed == w.closed
  {
    if w.committed then w
    else
      var cookies := if "Set-Cookie" in w.header then w.header["Set-Cookie"] else w.resp.cookies;
      w.(committed := true, resp := StreamingResponse(code, CommittedHeaders(w.header), cookies))
  }

  /** Write: the bytes join the buffer. */
  function Write(w: StreamWriter, b: seq<byte>): (w': StreamWriter)
    ensures w'.buf == w.buf + b
    ensures w' == w.(buf := w'.buf)
  {
    w.(buf := w.buf + b)
  }

  /**
   * Flush: commit with 200 if nothing was committed yet; with an empty
   * buffer nothing else happens; otherwise the buffer goes to the pipe
   * (lost once the pipe is closed) and is emptied.
   */
  function Flush(w: StreamWriter): (w': StreamWriter)
    ensures w'.committed
    ensures w'.buf == []
    ensures !w.closed ==> w'.sink == w.sink + w.buf
    ensures w.closed ==> w'.sink == w.sink
    ensures w'.resp == WriteHeader(w, 200).resp
    ensures w'.closed == w.closed && w'.header == w.header
  {
    var w1 := if !w.committed then WriteHeader(w, 200) else w;
    if |w1.buf| == 0 then w1
    else w1.(sink := if w1.closed then w1.sink else w1.sink + w1.buf, buf := [])
  }

  /** Close: commit, flush, then close the pipe. */
  function Close(w: StreamWriter): (w': StreamWriter)
    ensures w'.committed && w'.closed && w'.buf == []
    ensures !w.closed ==> w'.sink == w.sink + w.buf
    ensures w'.resp == WriteHeader(w, 200).resp
  {
    var w1 := if !w.committed then WriteHeader(w, 200) else w;
    Flush(w1).(closed := true)
  }

  /** What a handler (and the goroutine that serves it) can do to the writer. */
  datatype Action =
    | DoWrite(data: seq<byte>)
    | DoWriteHeader(code: int)
    | DoFlush
    | DoClose
    | AddHeader(key: string, value: string)
    | SetHeader(key: string, value: string)
    | DelHeader(key: string)

  function Step(w: StreamWriter, a: Action): StreamWriter {
    match a
    case DoWrite(data) => Write(w, data)
    case DoWriteHeader(code) => WriteHeader(w, code)
    case DoFlush => Flush(w)
    case DoClose => Close(w)
    case AddHeader(k, v) => w.(header := Add(w.header, k, v))
    case SetHeader(k, v) => w.(header := Set(w.header, k, v))
    case DelHeader(k) => w.(header := Del(w.header, k))
  }

  function Run(w: StreamWriter, acts: seq<Action>): StreamWriter
    decreases |acts|
  {
    if |acts| == 0 then w else Run(Step(w, acts[0]), acts[1..])
  }

  /** Everything the actions wrote, in order. */
  function Written(acts: seq<Action>): seq<byte>
    decreases |acts|
  {
    if |acts| == 0 then []
    else (if acts[0].DoWrite? then acts[0].data else []) + Written(acts[1..])
  }

  /** No Close among the actions. */
  predicate NoClose(acts: seq<Action>) {
    forall i :: 0 <= i < |acts| ==> !acts[i].DoClose?
  }

  /**
   * The status the actions commit, as a reference: the code of the first
   * WriteHeader if it comes before any Flush or Close, 200 if a Flush or
   * Close comes first, None if nothing commits.
   */
  function FirstCommit(acts: seq<Action>): Option<int>
    decreases |acts|
  {
    if |acts| == 0 then None
    else match acts[0]
      case DoWriteHeader(code) => Some(code)
      case DoFlush => Some(200)
      case DoClose => Some(200)
      case _ => FirstCommit(acts[1..])
  }

  // ---------------------------------------------------------------- trace properties

  /** Once committed, the response never changes again and stays committed. */
  lemma {:induction false} CommitOnce(w: StreamWriter, acts: seq<Action>)
    requires w.committed
    ensures Run(w, acts).committed
    ensures Run(w, acts).resp == w.resp
    decreases |acts|
  {
    if |acts| > 0 {
      var w1 := Step(w, acts[0]);
      assert w1.committed && w1.resp == w.resp;
      CommitOnce(w1, acts[1..]);
    }
  }

  /** The committed status is the one FirstCommit names, and nothing commits without it. */
  lemma {:induction false} CommittedStatus(w: StreamWriter, acts: seq<Action>)
    requires !w.committed
    ensures Run(w, acts).committed <==> FirstCommit(acts).Some?
    ensures FirstCommit(acts).Some? ==> Run(w, acts).resp.statusCode == FirstCommit(acts).value
    ensures FirstCommit(acts).None? ==> Run(w, acts).resp == w.resp
    decreases |acts|
  {
    if |acts| > 0 {
      var w1 := Step(w, acts[0]);
      if w1.committed {
        CommitOnce(w1, acts[1..]);
      } else {
        assert w1.resp == w.resp;
        CommittedStatus(w1, acts[1..]);
      }
    }
  }

  /** Until the pipe is closed, what was delivered and what is pending together are everything written. */
  lemma {:induction false} DeliveredPlusPending(w: StreamWriter, acts: seq<Action>)
    requires !w.closed && NoClose(acts)
    ensures !Run(w, acts).closed
    ensures Run(w, acts).sink + Run(w, acts).buf == w.sink + w.buf + Written(acts)
    decreases |acts|
  {
    if |acts| > 0 {
      var w1 := Step(w, acts[0]);
      var piece := if acts[0].DoWrite? then acts[0].data else [];
      assert w1.sink + w1.buf == w.sink + w.buf + piece;
      assert !w1.closed;
      assert NoClose(acts[1..]) by {
        forall i | 0 <= i < |acts[1..]| ensures !acts[1..][i].DoClose? {
          assert acts[1..][i] == acts[i + 1];
        }
      }
      DeliveredPlusPending(w1, acts[1..]);
    }
  }

  /** Running one more action is one more Step. */
  lemma {:induction false} RunSnoc(w: StreamWriter, acts: seq<Action>, a: Action)
    ensures Run(w, acts + [a]) == Step(Run(w, acts), a)
    decreases |acts|
  {
    if |acts| > 0 {
      assert (acts + [a])[1..] == acts[1..] + [a];
      RunSnoc(Step(w, acts[0]), acts[1..], a);
    }
  }

  /**
   * A handler that never closes the writer itself, followed by the Close
   * the serving goroutine defers: every written byte reaches the pipe, in
   * order, nothing stays buffered, and the pipe ends closed.
   */
  lemma StreamDeliversEverything(acts: seq<Action>)
    requires NoClose(acts)
    ensures var w := Run(NewStreamWriter(), acts + [DoClose]);
      w.sink == Written(acts) && w.buf == [] && w.closed && w.committed
  {
    var w0 := NewStreamWriter();
    DeliveredPlusPending(w0, acts);
    RunSnoc(w0, acts, DoClose);
  }

  /**
   * The status the Lambda runtime sees: the handler's first WriteHeader
   * if it came before any Flush, else 200.
   */
  lemma StreamStatus(acts: seq<Action>)
    requires NoClose(acts)
    ensures Run(NewStreamWriter(), acts + [DoClose]).resp.statusCode ==
      if FirstCommit(acts).Some? then FirstCommit(acts).value else 200
  {
    var w0 := NewStreamWriter();
    CommittedStatus(w0, acts);
    RunSnoc(w0, acts, DoClose);
  }

  // ---------------------------------------------------------------- a server-sent-events handler

  /** The chunks, one after another. */
  function Concat(chunks: seq<seq<byte>>): seq<byte>
    decreases |chunks|
  {
    if |chunks| == 0 then [] else chunks[0] + Concat(chunks[1..])
  }

  /** Write each chunk and flush it at once. */
  function WriteAndFlush(chunks: seq<seq<byte>>): seq<Action>
    decreases |chunks|
  {
    if |chunks| == 0 then [] else [DoWrite(chunks[0]), DoFlush] + WriteAndFlush(chunks[1..])
  }

  /** Running two action sequences is running their concatenation. */
  lemma {:induction false} RunAppend(w: StreamWriter, a: seq<Action>, b: seq<Action>)
    ensures Run(w, a + b) == Run(Run(w, a), b)
    decreases |a|
  {
    if |a| > 0 {
      assert (a + b)[0] == a[0] && (a + b)[1..] == a[1..] + b;
      RunAppend(Step(w, a[0]), a[1..], b);
    } else {
      assert a + b == b;
    }
  }

  /** What a concatenation of actions writes is what each part writes, in order. */
  lemma {:induction false} WrittenAppend(a: seq<Action>, b: seq<Action>)
    ensures Written(a + b) == Written(a) + Written(b)
    decreases |a|
  {
    if |a| > 0 {
      assert (a + b)[0] == a[0] && (a + b)[1..] == a[1..] + b;
      WrittenAppend(a[1..], b);
    } else {
      assert a + b == b;
    }
  }

  /** Writing and flushing the chunks writes their concatenation and never closes. */
  lemma {:induction false} WriteAndFlushWrites(chunks: seq<seq<byte>>)
    ensures Written(WriteAndFlush(chunks)) == Concat(chunks)
    ensures NoClose(WriteAndFlush(chunks))
    decreases |chunks|
  {
    if |chunks| > 0 {
      var head: seq<Action> := [DoWrite(chunks[0]), DoFlush];
      var tail := WriteAndFlush(chunks[1..]);
      WriteAndFlushWrites(chunks[1..]);
      WrittenAppend(head, tail);
      assert Written(head) == chunks[0] by {
        assert head[1..] == [DoFlush];
        assert Written([DoFlush]) == [];
      }
      forall i | 0 <= i < |head + tail| ensures !(head + tail)[i].DoClose? {
        if i >= 2 { assert (head + tail)[i] == tail[i - 2]; }
      }
    }
  }

  /**
   * A handler that sets Content-Type to text/event-stream, commits 200,
   * then writes and flushes each chunk, before the deferred Close: the
   * runtime sees status 200, exactly that one header, no cookies, and the
   * chunks in order as the body.
   */
  lemma EventStream(chunks: seq<seq<byte>>)
    ensures var w := Run(NewStreamWriter(),
                         [SetHeader("Content-Type", "text/event-stream"), DoWriteHeader(200)]
                         + WriteAndFlush(chunks) + [DoClose]);
      && w.resp.statusCode == 200
      && w.resp.headers == map["Content-Type" := "text/event-stream"]
      && w.resp.cookies == []
      && w.sink == Concat(chunks)
      && w.closed
  {
    var pre := [SetHeader("Content-Type", "text/event-stream"), DoWriteHeader(200)];
    var body := WriteAndFlush(chunks);
    var w0 := NewStreamWriter();
    TextProto.KnownKeysCanonical();
    var w1 := Run(w0, pre);
    assert w1.header == map["Content-Type" := ["text/event-stream"]];
    assert w1.committed && w1.resp.statusCode == 200 && w1.resp.cookies == [];
    assert w1.resp.headers == map["Content-Type" := "text/event-stream"];
    RunAppend(w0, pre, body + [DoClose]);
    assert pre + body + [DoClose] == pre + (body + [DoClose]);
    CommitOnce(w1, body + [DoClose]);
    WriteAndFlushWrites(chunks);
    assert NoClose(pre + body) by {
      forall i | 0 <= i < |pre + body| ensures !(pre + body)[i].DoClose? {
        if i >= 2 { assert (pre + body)[i] == body[i - 2]; }
      }
    }
    StreamDeliversEverything(pre + body);
    WrittenAppend(pre, body);
    assert Written(pre) == [] by {
      assert pre[1..] == [DoWriteHeader(200)];
      assert Written([DoWriteHeader(200)]) == [];
    }
  }

  /** Flush on an empty buffer after the commit changes nothing. */
  lemma FlushEmptyIsNoOp(w: StreamWriter)
    requires w.committed && w.buf == []
    ensures Flush(w) == w
  {
  }
}
