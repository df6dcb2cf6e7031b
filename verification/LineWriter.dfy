/** The log splitter: bytes arrive in chunks of any size, whole lines are logged. */
module LineWriter {
  import opened Bytes

  const NEWLINE: Byte := 10

  datatype Split = Split(lines: seq<seq<Byte>>, rest: seq<Byte>)

  /** Add one byte to a stream split so far; an empty line is not logged. */
  function Feed(s: Split, b: Byte): Split {
    if b != NEWLINE then s.(rest := s.rest + [b])
    else Split(if s.rest == [] then s.lines else s.lines + [s.rest], [])
  }

  /** The non-empty newline-terminated lines of a stream, and the text after the last newline. */
  function SplitOf(stream: seq<Byte>): Split
    decreases |stream|
  {
    if stream == [] then Split([], [])
    else Feed(SplitOf(stream[..|stream| - 1]), stream[|stream| - 1])
  }

  /** What the split means, independently of how it is computed. */
  function Joined(lines: seq<seq<Byte>>): seq<Byte>
    decreases |lines|
  {
    if lines == [] then [] else Joined(lines[..|lines| - 1]) + lines[|lines| - 1] + [NEWLINE]
  }

  function WithoutEmpty(lines: seq<seq<Byte>>): seq<seq<Byte>>
    decreases |lines|
  {
    if lines == [] then []
    else
      var last := lines[|lines| - 1];
      WithoutEmpty(lines[..|lines| - 1]) + if last == [] then [] else [last]
  }

  ghost predicate IsSplit(stream: seq<Byte>, all: seq<seq<Byte>>, rest: seq<Byte>) {
    && stream == Joined(all) + rest
    && (forall line :: line in all ==> NEWLINE !in line) && NEWLINE !in rest
  }

  lemma OneMoreLine(all: seq<seq<Byte>>, line: seq<Byte>)
    ensures Joined(all + [line]) == Joined(all) + line + [NEWLINE]
    ensures WithoutEmpty(all + [line]) == WithoutEmpty(all) + if line == [] then [] else [line]
  {
    assert (all + [line])[..|all|] == all;
  }

  lemma NewlineEndsLine(stream: seq<Byte>, all: seq<seq<Byte>>, rest: seq<Byte>)
    requires IsSplit(stream, all, rest)
    ensures IsSplit(stream + [NEWLINE], all + [rest], [])
  {
    OneMoreLine(all, rest);
    assert Joined(all + [rest]) + [] == stream + [NEWLINE];
  }

  lemma ByteExtendsRest(stream: seq<Byte>, all: seq<seq<Byte>>, rest: seq<Byte>, b: Byte)
    requires IsSplit(stream, all, rest) && b != NEWLINE
    ensures IsSplit(stream + [b], all, rest + [b])
  {
    Assoc(Joined(all), rest, [b]);
  }

  /** Some way of cutting the stream at its newlines gives these lines and this rest. */
  lemma {:induction false} SplitIsRight(stream: seq<Byte>) returns (all: seq<seq<Byte>>)
    ensures IsSplit(stream, all, SplitOf(stream).rest) && SplitOf(stream).lines == WithoutEmpty(all)
    decreases |stream|
  {
    if stream == [] {
      all := [];
    } else {
      var before, b := stream[..|stream| - 1], stream[|stream| - 1];
      all := SplitIsRight(before);
      var rest := SplitOf(before).rest;
      assert stream == before + [b];
      if b == NEWLINE {
        NewlineEndsLine(before, all, rest);
        OneMoreLine(all, rest);
        assert WithoutEmpty(all) + [] == WithoutEmpty(all);
        all := all + [rest];
      } else {
        ByteExtendsRest(before, all, rest, b);
      }
    }
  }

  /** Feeding a stretch without newlines only lengthens the rest. */
  lemma {:induction false} SplitPlain(stream: seq<Byte>, text: seq<Byte>)
    requires NEWLINE !in text
    ensures SplitOf(stream + text) == SplitOf(stream).(rest := SplitOf(stream).rest + text)
    decreases |text|
  {
    if text == [] {
      assert stream + text == stream;
      assert SplitOf(stream).rest + [] == SplitOf(stream).rest;
    } else {
      var last := |text| - 1;
      assert (stream + text)[..|stream| + last] == stream + text[..last];
      SplitPlain(stream, text[..last]);
      assert text[..last] + [text[last]] == text;
    }
  }

  /** A line fed whole after a point where nothing is left over. */
  lemma WholeLine(done: seq<Byte>, line: seq<Byte>)
    requires NEWLINE !in line && SplitOf(done).rest == []
    ensures var before := SplitOf(done).lines;
            SplitOf(done + line + [NEWLINE]) == Split(if line == [] then before else before + [line], [])
  {
    SplitPlain(done, line);
    assert (done + line + [NEWLINE])[..|done + line|] == done + line;
    assert [] + line == line;
  }

  /** One line and the beginning of another, by the bytes. */
  lemma LineFeedEnds(line: seq<Byte>, rest: seq<Byte>)
    requires 10 !in line && 10 !in rest
    ensures SplitOf(line + [10] + rest) == Split(if line == [] then [] else [line], rest)
  {
    WholeLine([], line);
    assert [] + line == line && [] + [line] == [line] && [] + rest == rest;
    SplitPlain(line + [10], rest);
  }

  /** bytes.IndexByte: the first newline, or -1. */
  method IndexByte(s: seq<Byte>) returns (i: int)
    ensures -1 <= i < |s|
    ensures i >= 0 ==> s[i] == NEWLINE && NEWLINE !in s[..i]
    ensures i < 0 ==> NEWLINE !in s
  {
    i := 0;
    while i < |s|
      invariant 0 <= i <= |s|
      invariant NEWLINE !in s[..i]
    {
      if s[i] == NEWLINE {
        return;
      }
      i := i + 1;
    }
    i := -1;
  }

  class Writer {
    var rest: seq<Byte>
    var logged: seq<seq<Byte>>   // the messages handed to the logger, in order
    ghost var stream: seq<Byte>  // every byte written so far

    ghost predicate Valid()
      reads this
    {
      Split(logged, rest) == SplitOf(stream)
    }

    constructor ()
      ensures Valid() && stream == []
    {
      rest, logged, stream := [], [], [];
    }

    /** However a stream is cut into writes, what is logged and kept depends on the whole only. */
    method Write(p: seq<Byte>) returns (n: nat)
      requires Valid()
      modifies this
      ensures Valid() && stream == old(stream) + p && n == |p|
    {
      ghost var whole := stream + p;
      RestIsEnd(stream);
      ghost var done := stream[..|stream| - |rest|];
      Assoc(done, rest, p);
      rest := rest + p;
      while true
        invariant SplitOf(done) == Split(logged, []) && done + rest == whole
        decreases |rest|
      {
        var i := IndexByte(rest);
        if i < 0 {
          break;
        }
        OneLine(done, rest, i);
        done := done + rest[..i] + [NEWLINE];
        if i > 0 {
          logged := logged + [rest[..i]];
        }
        rest := rest[i + 1..];
      }
      NoLine(done, rest, logged);
      stream := whole;
      n := |p|;
    }
  }

  /** The first line of the rest, taken off. */
  lemma OneLine(done: seq<Byte>, rest: seq<Byte>, i: nat)
    requires i < |rest| && rest[i] == NEWLINE && NEWLINE !in rest[..i] && SplitOf(done).rest == []
    ensures var before := SplitOf(done).lines;
            SplitOf(done + rest[..i] + [NEWLINE]) == Split(if i == 0 then before else before + [rest[..i]], [])
    ensures done + rest[..i] + [NEWLINE] + rest[i + 1..] == done + rest
  {
    WholeLine(done, rest[..i]);
    TakeLine(done, rest, i);
  }

  lemma NoLine(done: seq<Byte>, rest: seq<Byte>, logged: seq<seq<Byte>>)
    requires NEWLINE !in rest && SplitOf(done) == Split(logged, [])
    ensures SplitOf(done + rest) == Split(logged, rest)
  {
    SplitPlain(done, rest);
    assert [] + rest == rest;
  }

  lemma TakeLine(done: seq<Byte>, rest: seq<Byte>, i: nat)
    requires i < |rest| && rest[i] == NEWLINE
    ensures done + rest == done + rest[..i] + [NEWLINE] + rest[i + 1..]
  {
    assert rest == rest[..i] + [NEWLINE] + rest[i + 1..];
  }

  /** The rest is the end of the stream, and without it nothing is left over. */
  lemma {:induction false} RestIsEnd(stream: seq<Byte>)
    ensures var rest := SplitOf(stream).rest;
            && |rest| <= |stream| && stream == stream[..|stream| - |rest|] + rest
            && SplitOf(stream[..|stream| - |rest|]) == Split(SplitOf(stream).lines, [])
    decreases |stream|
  {
    if stream != [] {
      var before := stream[..|stream| - 1];
      RestIsEnd(before);
      if stream[|stream| - 1] != NEWLINE {
        var k := |stream| - |SplitOf(stream).rest|;
        assert stream[..k] == before[..k];
      } else {
        assert stream[..|stream|] == stream;
      }
    }
  }

  function Concat(chunks: seq<seq<Byte>>): seq<Byte>
    decreases |chunks|
  {
    if chunks == [] then [] else Concat(chunks[..|chunks| - 1]) + chunks[|chunks| - 1]
  }

  /** Writing a stream chunk by chunk logs what its one-piece split says. */
  method WriteAll(w: Writer, chunks: seq<seq<Byte>>)
    requires w.Valid() && w.stream == []
    modifies w
    ensures Split(w.logged, w.rest) == SplitOf(Concat(chunks))
  {
    for i := 0 to |chunks|
      invariant w.Valid() && w.stream == Concat(chunks[..i])
    {
      var _ := w.Write(chunks[i]);
      assert chunks[..i + 1][..i] == chunks[..i];
    }
    assert chunks[..|chunks|] == chunks;
  }
}
