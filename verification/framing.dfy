/** Framing of a buffer of pipelined requests (`THttpRequest::generate`):
    which header and which body each request of the buffer is built from. */
module Framing {
  import opened Text
  import opened Collaborators

  /** The blank line that ends a header. */
  const Separator: string := "\r\n\r\n"

  /** The header and body one request is built from. */
  datatype Frame = Frame(header: Header, body: string)

  /** A header parser whose content lengths let the scan move forward: each
      step restarts the search at the separator's end plus the content
      length, which is past the separator's start only when the length is
      greater than -4. */
  ghost predicate Advances(parseHeader: string -> Header)
  {
    forall bytes :: parseHeader(bytes).contentLength > -4
  }

  /** The body of a request whose separator ends at `bodyStart`: empty for a
      content length of zero or less, otherwise the next `contentLength`
      bytes, or as many as the buffer still holds. */
  function BodyAt(buf: string, bodyStart: nat, contentLength: int): (body: string)
    ensures contentLength <= 0 ==> body == ""
    ensures contentLength > 0 && bodyStart <= |buf| ==>
      body == buf[bodyStart..if bodyStart + contentLength <= |buf| then bodyStart + contentLength else |buf|]
  {
    if contentLength <= 0 then "" else Mid(buf, bodyStart, contentLength)
  }

  /** The frames the scan finds from position `from` on: while a separator is
      found at an index greater than 0, the header is parsed from the rest of
      the buffer, the body is cut after the separator, and the scan goes on
      after that body. */
  function Frames(buf: string, from: nat, parseHeader: string -> Header): seq<Frame>
    requires Advances(parseHeader)
    decreases if from <= |buf| then |buf| - from + 1 else 0
  {
    var idx := IndexOf(buf, Separator, from);
    if idx <= 0 then []
    else
      var header := parseHeader(MidRest(buf, from));
      var bodyStart := idx + |Separator|;
      [Frame(header, BodyAt(buf, bodyStart, header.contentLength))]
        + Frames(buf, bodyStart + header.contentLength, parseHeader)
  }

  /** One step of the scan: a separator found at an index greater than 0
      gives a frame, and the scan resumes after its body. */
  lemma FramesStep(buf: string, from: nat, parseHeader: string -> Header)
    requires Advances(parseHeader)
    requires IndexOf(buf, Separator, from) > 0
    ensures var header := parseHeader(MidRest(buf, from));
      var bodyStart := IndexOf(buf, Separator, from) + |Separator|;
      && bodyStart + header.contentLength >= 0
      && Frames(buf, from, parseHeader)
         == [Frame(header, BodyAt(buf, bodyStart, header.contentLength))]
            + Frames(buf, bodyStart + header.contentLength, parseHeader)
  {
  }

  /** Each frame takes at least one byte of the buffer: the scan from `from`
      finds at most `|buf| - from` requests. */
  lemma {:induction false} FramesBound(buf: string, from: nat, parseHeader: string -> Header)
    requires Advances(parseHeader)
    ensures Frames(buf, from, parseHeader) != [] ==> from + |Frames(buf, from, parseHeader)| <= |buf|
    decreases if from <= |buf| then |buf| - from + 1 else 0
  {
    var idx := IndexOf(buf, Separator, from);
    if idx > 0 {
      var contentLength := parseHeader(MidRest(buf, from)).contentLength;
      var next := idx + |Separator| + contentLength;
      FramesTail(buf, from, parseHeader, idx, contentLength, next);
      FramesBound(buf, next, parseHeader);
      if next > |buf| - |Separator| {
        assert IndexOf(buf, Separator, next) == -1;
      }
    }
  }

  /** The first frame found from `from`, and the frames after it, which
      are those found from where the scan resumes. */
  lemma FramesTail(buf: string, from: nat, parseHeader: string -> Header, idx: int, contentLength: int, next: int)
    requires Advances(parseHeader)
    requires idx == IndexOf(buf, Separator, from) && idx > 0
    requires contentLength == parseHeader(MidRest(buf, from)).contentLength
    requires next == idx + |Separator| + contentLength
    ensures from < next && from < |buf|
    ensures var frames := Frames(buf, from, parseHeader);
      && |frames| > 0
      && frames[0] == Frame(parseHeader(MidRest(buf, from)), BodyAt(buf, idx + |Separator|, contentLength))
      && frames[1..] == Frames(buf, next, parseHeader)
  {
    assert contentLength > -4;
    FramesStep(buf, from, parseHeader);
    var first := Frame(parseHeader(MidRest(buf, from)), BodyAt(buf, idx + |Separator|, contentLength));
    var tail := Frames(buf, next, parseHeader);
    assert Frames(buf, from, parseHeader) == [first] + tail;
    assert ([first] + tail)[1..] == tail;
  }

  /** A buffer that starts with the separator yields no request. */
  lemma SeparatorAtStart(buf: string, parseHeader: string -> Header)
    requires Advances(parseHeader)
    requires OccursAt(buf, Separator, 0)
    ensures Frames(buf, 0, parseHeader) == []
  {
  }

  /** A buffer without a separator yields no request. */
  lemma NoSeparator(buf: string, parseHeader: string -> Header)
    requires Advances(parseHeader)
    requires forall k :: 0 <= k ==> !OccursAt(buf, Separator, k)
    ensures Frames(buf, 0, parseHeader) == []
  {
    IndexOfFinds(buf, Separator, 0);
  }

  /** A declared length longer than what follows the separator gives a
      truncated body holding the rest of the buffer, and that request is the
      last one. */
  lemma TruncatedBodyIsLast(buf: string, from: nat, parseHeader: string -> Header)
    requires Advances(parseHeader)
    requires IndexOf(buf, Separator, from) > 0
    requires var idx := IndexOf(buf, Separator, from);
      idx + |Separator| + parseHeader(MidRest(buf, from)).contentLength > |buf|
    ensures var idx := IndexOf(buf, Separator, from);
      && |Frames(buf, from, parseHeader)| == 1
      && Frames(buf, from, parseHeader)[0].body == buf[idx + |Separator|..]
  {
    var idx := IndexOf(buf, Separator, from);
    var next := idx + |Separator| + parseHeader(MidRest(buf, from)).contentLength;
    assert IndexOf(buf, Separator, next) == -1;
  }

  /** One message of a pipelined buffer: a header block and its body. */
  datatype Message = Message(head: string, body: string)

  /** The bytes of a sequence of messages sent back to back. */
  function Serialize(msgs: seq<Message>): string
  {
    if |msgs| == 0 then "" else msgs[0].head + Separator + msgs[0].body + Serialize(msgs[1..])
  }

  /** A message whose header block is not empty and holds no blank line
      before its end. */
  predicate WellFormed(m: Message)
  {
    && |m.head| > 0
    && forall k :: 0 <= k < |m.head| ==> !OccursAt(m.head + Separator, Separator, k)
  }

  /** The separator search, started at a message, stops at that message's
      own separator. */
  lemma {:induction false} FindsOwnSeparator(buf: string, from: nat, m: Message, rest: string)
    requires WellFormed(m)
    requires from <= |buf| && buf[from..] == m.head + Separator + m.body + rest
    ensures IndexOf(buf, Separator, from) == from + |m.head|
  {
    var hs := m.head + Separator;
    var at := from + |m.head|;
    assert buf[at..at + |Separator|] == buf[from..][|m.head|..|m.head| + |Separator|];
    assert OccursAt(buf, Separator, at);
    forall k | from <= k < at
      ensures !OccursAt(buf, Separator, k)
    {
      assert buf[k..k + |Separator|] == hs[k - from..k - from + |Separator|];
      assert !OccursAt(hs, Separator, k - from);
    }
    IndexOfFinds(buf, Separator, from);
  }

  /** The first message of a back-to-back buffer becomes the first frame,
      and the scan resumes where the next message starts. */
  lemma FirstMessageFrame(buf: string, from: nat, msgs: seq<Message>, parseHeader: string -> Header, next: nat)
    requires Advances(parseHeader)
    requires from <= |buf| && buf[from..] == Serialize(msgs)
    requires |msgs| > 0 && WellFormed(msgs[0])
    requires parseHeader(Serialize(msgs)).contentLength == |msgs[0].body|
    requires next == from + |msgs[0].head| + |Separator| + |msgs[0].body|
    ensures next <= |buf| && buf[next..] == Serialize(msgs[1..])
    ensures Frames(buf, from, parseHeader)
      == [Frame(parseHeader(Serialize(msgs)), msgs[0].body)] + Frames(buf, next, parseHeader)
  {
    var m := msgs[0];
    var rest := Serialize(msgs[1..]);
    assert Serialize(msgs) == m.head + Separator + m.body + rest;
    FindsOwnSeparator(buf, from, m, rest);
    MessageLayout(buf, from, m, rest);
    var header := parseHeader(MidRest(buf, from));
    assert header == parseHeader(Serialize(msgs));
    FrameAt(buf, from, parseHeader, |m.head|, |m.body|, next);
    var tail := Frames(buf, next, parseHeader);
    assert Frames(buf, from, parseHeader) == [Frame(header, buf[next - |m.body|..next])] + tail;
    assert buf[next - |m.body|..next] == m.body;
    assert Frame(header, buf[next - |m.body|..next]) == Frame(parseHeader(Serialize(msgs)), m.body);
  }

  /** A separator `headLen` bytes after the scan position, followed by a
      body of the declared length within the buffer, gives that frame, and
      the scan resumes right after the body. */
  lemma FrameAt(buf: string, from: nat, parseHeader: string -> Header, headLen: nat, bodyLen: nat, next: nat)
    requires Advances(parseHeader)
    requires headLen > 0 && IndexOf(buf, Separator, from) == from + headLen
    requires parseHeader(MidRest(buf, from)).contentLength == bodyLen
    requires next == from + headLen + |Separator| + bodyLen <= |buf|
    ensures Frames(buf, from, parseHeader)
      == [Frame(parseHeader(MidRest(buf, from)), buf[next - bodyLen..next])] + Frames(buf, next, parseHeader)
  {
    var bodyStart := IndexOf(buf, Separator, from) + |Separator|;
    assert bodyStart + bodyLen == next;
    FramesStep(buf, from, parseHeader);
    var first := Frame(parseHeader(MidRest(buf, from)), BodyAt(buf, bodyStart, bodyLen));
    assert first.body == buf[next - bodyLen..next];
    var tail := Frames(buf, next, parseHeader);
    assert Frames(buf, from, parseHeader) == [first] + tail;
  }

  /** Where the body of a message and what follows it lie in the buffer. */
  lemma MessageLayout(buf: string, from: nat, m: Message, rest: string)
    requires from <= |buf| && buf[from..] == m.head + Separator + m.body + rest
    ensures var bodyStart := from + |m.head| + |Separator|;
      && bodyStart + |m.body| <= |buf|
      && buf[bodyStart..bodyStart + |m.body|] == m.body
      && buf[bodyStart + |m.body|..] == rest
  {
    var bodyStart := from + |m.head| + |Separator|;
    var tail := buf[from..][|m.head| + |Separator|..];
    assert tail == m.body + rest;
    assert buf[bodyStart..] == tail;
    assert buf[bodyStart..bodyStart + |m.body|] == tail[..|m.body|];
    assert buf[bodyStart + |m.body|..] == tail[|m.body|..];
  }

  /** Messages sent back to back, each with a content length equal to its
      body's length, are framed into exactly those messages, in order. */
  lemma {:induction false} PipelinedMessages(buf: string, from: nat, msgs: seq<Message>, parseHeader: string -> Header)
    requires Advances(parseHeader)
    requires from <= |buf| && buf[from..] == Serialize(msgs)
    requires forall i :: 0 <= i < |msgs| ==> WellFormed(msgs[i])
    requires forall i :: 0 <= i < |msgs| ==> parseHeader(Serialize(msgs[i..])).contentLength == |msgs[i].body|
    ensures |Frames(buf, from, parseHeader)| == |msgs|
    ensures forall i :: 0 <= i < |msgs| ==>
      Frames(buf, from, parseHeader)[i] == Frame(parseHeader(Serialize(msgs[i..])), msgs[i].body)
    decreases |msgs|
  {
    if |msgs| == 0 {
      assert IndexOf(buf, Separator, from) == -1;
    } else {
      SplitConditions(msgs, parseHeader);
      var next := from + |msgs[0].head| + |Separator| + |msgs[0].body|;
      FirstMessageFrame(buf, from, msgs, parseHeader, next);
      PipelinedMessages(buf, next, msgs[1..], parseHeader);
      assert Frames(buf, from, parseHeader) == [Frame(parseHeader(Serialize(msgs)), msgs[0].body)] + Frames(buf, next, parseHeader);
      assert |Frames(buf, next, parseHeader)| == |msgs| - 1;
      ConsFrames(Frames(buf, from, parseHeader), Frames(buf, next, parseHeader), msgs, parseHeader);
    }
  }

  /** The conditions on a list of messages hold for its first message and
      for the list of the others. */
  lemma SplitConditions(msgs: seq<Message>, parseHeader: string -> Header)
    requires |msgs| > 0
    requires forall i :: 0 <= i < |msgs| ==> WellFormed(msgs[i])
    requires forall i :: 0 <= i < |msgs| ==> parseHeader(Serialize(msgs[i..])).contentLength == |msgs[i].body|
    ensures WellFormed(msgs[0]) && parseHeader(Serialize(msgs)).contentLength == |msgs[0].body|
    ensures forall i :: 0 <= i < |msgs| - 1 ==> WellFormed(msgs[1..][i])
    ensures forall i :: 0 <= i < |msgs| - 1 ==>
      parseHeader(Serialize(msgs[1..][i..])).contentLength == |msgs[1..][i].body|
  {
    assert msgs[0..] == msgs;
    forall i | 0 <= i < |msgs| - 1
      ensures parseHeader(Serialize(msgs[1..][i..])).contentLength == |msgs[1..][i].body|
    {
      assert msgs[1..][i..] == msgs[i + 1..];
    }
  }

  /** A frame list made of the first message's frame followed by the
      frames of the remaining messages is the frame list of all of them. */
  lemma {:induction false} ConsFrames(frames: seq<Frame>, tail: seq<Frame>, msgs: seq<Message>, parseHeader: string -> Header)
    requires |msgs| > 0
    requires frames == [Frame(parseHeader(Serialize(msgs)), msgs[0].body)] + tail
    requires |tail| == |msgs| - 1
    requires forall i :: 0 <= i < |msgs| - 1 ==>
      tail[i] == Frame(parseHeader(Serialize(msgs[1..][i..])), msgs[1..][i].body)
    ensures |frames| == |msgs|
    ensures forall i :: 0 <= i < |msgs| ==> frames[i] == Frame(parseHeader(Serialize(msgs[i..])), msgs[i].body)
  {
    forall i | 0 <= i < |msgs|
      ensures frames[i] == Frame(parseHeader(Serialize(msgs[i..])), msgs[i].body)
    {
      if i == 0 {
        assert msgs[i..] == msgs;
      } else {
        assert frames[i] == tail[i - 1];
        assert msgs[1..][i - 1..] == msgs[i..];
      }
    }
  }
}
