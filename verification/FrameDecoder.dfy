/**
 * The CRLF branch of LineBasedFrameDecoder.  A frame is a view, a start and a size_t length, and
 * the length is one less than the line's: for an empty line it wraps around.
 */
module FrameDecoder {
  import opened Lexical
  import opened Simd

  const SIZE_MODULUS: nat := 0x1_0000_0000_0000_0000

  datatype View = View(start: nat, length: nat)

  // `cr - begin - 1` in size_t arithmetic
  function ViewLength(lineLength: nat): nat {
    (lineLength as int - 1) % SIZE_MODULUS
  }

  function FirstCR(s: string): (k: nat)
    ensures k <= |s| && (k < |s| ==> s[k] == CR)
    ensures forall i :: 0 <= i < k ==> s[i] != CR
  {
    if s == "" || s[0] == CR then 0 else 1 + FirstCR(s[1..])
  }

  // The byte after position k of s, which the byte `after` follows in memory
  function ByteAfter(s: string, after: char, k: nat): char {
    if k + 1 < |s| then s[k + 1] else after
  }

  // The frames found in s, whose first byte stands at index `at`
  function Frames(s: string, after: char, at: nat): seq<View>
    decreases |s|
  {
    var k := FirstCR(s);
    if k == |s| || ByteAfter(s, after, k) != LF then []
    else if k + 1 == |s| then [View(at, ViewLength(k))]
    else [View(at, ViewLength(k))] + Frames(s[k + 2..], after, at + k + 2)
  }

  /**
   * Decodes from begin to end, appending to the results.  The byte after a CR is read even when
   * the CR is the last one, so the byte at `end` must be readable.
   */
  method LineBasedFrameDecoder(mem: array<char>, begin: nat, end: nat, found: seq<View>) returns (results: seq<View>)
    requires begin <= end < mem.Length < SIZE_MODULUS - 2
    ensures results == found + Frames(mem[begin..end], mem[end], begin)
  {
    results := found;
    hide Frames, ViewLength, FirstCR, IsFirstMatch;
    var at := begin;
    ghost var all := FramesFrom(mem, begin, end);
    assert all == Frames(mem[begin..end], mem[end], begin);
    hide FramesFrom;
    while true
      invariant begin <= at <= end + 1
      invariant results + FramesFrom(mem, at, end) == found + all
      decreases end + 1 - at
    {
      var cr := FindChar128(mem, at, end, CR);
      NextFrame(mem, at, end, cr);
      if cr == end {
        return;
      }
      if mem[cr] != CR || mem[cr + 1] != LF {
        return;
      }
      var length := ViewLength(cr - at);
      WrapBack(cr - at, at);
      OneMore(results, View(at, length), FramesFrom(mem, cr + 2, end));
      results := results + [View(at, length)];
      at := (at + length + 3) % SIZE_MODULUS;
    }
  }

  lemma OneMore(results: seq<View>, v: View, rest: seq<View>)
    ensures results + ([v] + rest) == (results + [v]) + rest
  {
  }

  // What is left to find from `at` on; `at` can be one past the end.
  ghost function FramesFrom(mem: array<char>, at: nat, end: nat): seq<View>
    requires end < mem.Length
    reads mem
  {
    if at <= end then Frames(mem[at..end], mem[end], at) else []
  }

  lemma NextFrame(mem: array<char>, at: nat, end: nat, cr: nat)
    requires end < mem.Length && IsFirstMatch(mem, at, end, CR, cr)
    ensures cr == end || (at <= cr < end && mem[cr] == CR)
    ensures FramesFrom(mem, at, end) ==
            if cr < end && mem[cr + 1] == LF then [View(at, ViewLength(cr - at))] + FramesFrom(mem, cr + 2, end) else []
  {
    hide ViewLength, FirstCR;
    if at < end {
      var s := mem[at..end];
      if cr < end {
        FirstCRIs(s, cr - at);
        assert ByteAfter(s, mem[end], cr - at) == mem[cr + 1];
        assert cr + 2 <= end ==> s[cr - at + 2..] == mem[cr + 2..end];
      } else {
        NoCR(s);
      }
    } else if at == end {
      NoCR(mem[at..end]);
    }
  }

  // The view's length may wrap around, and stepping over the line wraps it back.
  lemma WrapBack(line: nat, at: nat)
    requires at + line + 2 < SIZE_MODULUS
    ensures (at + ViewLength(line) + 3) % SIZE_MODULUS == at + line + 2
  {
    if line == 0 {
      assert ViewLength(line) == SIZE_MODULUS - 1;
    }
  }

  lemma FirstCRIs(s: string, k: nat)
    requires k < |s| && s[k] == CR && forall i :: 0 <= i < k ==> s[i] != CR
    ensures FirstCR(s) == k
  {
    var j := FirstCR(s);
    if j < k {
      assert false;
    }
  }

  lemma NoCR(s: string)
    requires forall i :: 0 <= i < |s| ==> s[i] != CR
    ensures FirstCR(s) == |s|
  {
  }

  // Lines and the text they make

  predicate CRFree(line: string) {
    forall i :: 0 <= i < |line| ==> line[i] != CR
  }

  predicate AllCRFree(lines: seq<string>) {
    forall i :: 0 <= i < |lines| ==> CRFree(lines[i])
  }

  function Joined(lines: seq<string>): string {
    if lines == [] then "" else lines[0] + CRLF + Joined(lines[1..])
  }

  // The view of each line, where the first line starts at index `at`
  function ViewsOf(lines: seq<string>, at: nat): seq<View> {
    if lines == [] then []
    else [View(at, ViewLength(|lines[0]|))] + ViewsOf(lines[1..], at + |lines[0]| + 2)
  }

  // Decoding stops at once: there is no CR, or the first one is not followed by LF.
  predicate Blocked(tail: string, after: char) {
    FirstCR(tail) == |tail| || ByteAfter(tail, after, FirstCR(tail)) != LF
  }

  /**
   * s is CR-free lines, each followed by CRLF, and a tail at which decoding stops; or the last LF
   * is the byte after s, and nothing is left.
   */
  predicate SplitsInto(s: string, after: char, lines: seq<string>, tail: string) {
    && AllCRFree(lines)
    && ((Blocked(tail, after) && s == Joined(lines) + tail)
        || (tail == "" && after == LF && lines != [] && Joined(lines) == s + [LF]))
  }

  lemma LineParts(line: string, rest: string)
    requires CRFree(line)
    ensures var s := line + CRLF + rest;
            && |s| == |line| + 2 + |rest|
            && (forall i :: 0 <= i < |line| ==> s[i] != CR)
            && s[|line|] == CR && s[|line| + 1] == LF && s[|line| + 2..] == rest
  {
  }

  lemma FrameOfLine(line: string, rest: string, after: char, at: nat)
    requires CRFree(line)
    ensures Frames(line + CRLF + rest, after, at)
         == [View(at, ViewLength(|line|))] + Frames(rest, after, at + |line| + 2)
  {
    hide Frames, ViewLength;
    LineParts(line, rest);
    FramesFirst(line + CRLF + rest, |line|, after, at);
  }

  lemma FramesFirst(s: string, k: nat, after: char, at: nat)
    requires k + 2 <= |s| && s[k] == CR && s[k + 1] == LF && forall i :: 0 <= i < k ==> s[i] != CR
    ensures Frames(s, after, at) == [View(at, ViewLength(k))] + Frames(s[k + 2..], after, at + k + 2)
  {
    FirstCRIs(s, k);
    FramesUnfold(s, k, after, at);
  }

  lemma FramesUnfold(s: string, k: nat, after: char, at: nat)
    requires k + 2 <= |s| && k == FirstCR(s) && s[k + 1] == LF
    ensures Frames(s, after, at) == [View(at, ViewLength(k))] + Frames(s[k + 2..], after, at + k + 2)
  {
    hide ViewLength, FirstCR;
    assert ByteAfter(s, after, k) == LF;
    hide ByteAfter;
  }

  // Complete lines in front are framed one by one, and the rest is decoded as if alone.
  lemma {:induction false} FramesOfLines(lines: seq<string>, rest: string, after: char, at: nat)
    requires AllCRFree(lines)
    ensures Frames(Joined(lines) + rest, after, at)
         == ViewsOf(lines, at) + Frames(rest, after, at + |Joined(lines)|)
    decreases |lines|
  {
    hide Frames, ViewLength, CRFree;
    if lines == [] {
      assert Joined(lines) + rest == rest;
      assert ViewsOf(lines, at) == [];
    } else {
      FramesOfLines(lines[1..], rest, after, at + |lines[0]| + 2);
      JoinedFirst(lines, rest);
      FramesOfFirst(lines, rest, after, at);
    }
  }

  lemma FramesOfFirst(lines: seq<string>, rest: string, after: char, at: nat)
    requires lines != [] && AllCRFree(lines)
    ensures Frames(Joined(lines) + rest, after, at)
         == [View(at, ViewLength(|lines[0]|))] + Frames(Joined(lines[1..]) + rest, after, at + |lines[0]| + 2)
  {
    hide Frames, ViewLength, Joined;
    assert CRFree(lines[0]);
    FrameOfLine(lines[0], Joined(lines[1..]) + rest, after, at);
    JoinedFirst(lines, rest);
  }

  lemma JoinedFirst(lines: seq<string>, rest: string)
    requires lines != []
    ensures Joined(lines) + rest == lines[0] + CRLF + (Joined(lines[1..]) + rest)
    ensures |Joined(lines)| == |lines[0]| + 2 + |Joined(lines[1..])|
  {
    JoinedOfFirst(lines);
    hide Joined;
    assert lines[0] + CRLF + Joined(lines[1..]) + rest == lines[0] + CRLF + (Joined(lines[1..]) + rest);
  }

  lemma NoFrames(tail: string, after: char, at: nat)
    requires Blocked(tail, after)
    ensures Frames(tail, after, at) == []
  {
  }

  /**
   * The consumed segments and the unconsumed tail are the input: every input splits, and the views
   * are those of the lines.
   */
  lemma Split(s: string, after: char) returns (lines: seq<string>, tail: string)
    ensures SplitsInto(s, after, lines, tail)
    ensures forall at: nat :: Frames(s, after, at) == ViewsOf(lines, at)
  {
    hide Frames, ViewsOf;
    lines, tail := SplitText(s, after);
    forall at: nat ensures Frames(s, after, at) == ViewsOf(lines, at) {
      FramesAreTheLines(s, after, lines, tail, at);
    }
  }

  lemma {:induction false} SplitText(s: string, after: char) returns (lines: seq<string>, tail: string)
    ensures SplitsInto(s, after, lines, tail)
    decreases |s|
  {
    hide Frames;
    var k := FirstCR(s);
    if Blocked(s, after) {
      lines, tail := [], s;
      assert s == "" + s;
    } else if k + 1 == |s| {
      lines, tail := [s[..k]], "";
      assert Joined(lines[1..]) == "" && Joined(lines) == s[..k] + CRLF;
    } else {
      var more;
      more, tail := SplitText(s[k + 2..], after);
      lines := [s[..k]] + more;
      SplitFirst(s, after, k, more, tail);
    }
  }

  lemma SplitFirst(s: string, after: char, k: nat, more: seq<string>, tail: string)
    requires k + 2 <= |s| && s[k] == CR && s[k + 1] == LF && CRFree(s[..k])
    requires SplitsInto(s[k + 2..], after, more, tail)
    ensures SplitsInto(s, after, [s[..k]] + more, tail)
  {
    hide Blocked, FirstCR, CRFree;
    var lines := [s[..k]] + more;
    assert lines[1..] == more;
    assert s == s[..k] + CRLF + s[k + 2..];
    assert Joined(lines) == s[..k] + CRLF + Joined(more);
  }

  /** And every such split gives the same frames. */
  lemma FramesAreTheLines(s: string, after: char, lines: seq<string>, tail: string, at: nat)
    requires SplitsInto(s, after, lines, tail)
    ensures Frames(s, after, at) == ViewsOf(lines, at)
    ensures |Frames(s, after, at)| == |lines|
  {
    hide Frames, ViewsOf, Blocked, Joined, AllCRFree, CRFree;
    if Blocked(tail, after) && s == Joined(lines) + tail {
      FramesOfLines(lines, tail, after, at);
      NoFrames(tail, after, at + |Joined(lines)|);
    } else {
      StraddlingLine(s, lines, at);
    }
    ViewsCount(lines, at);
  }

  // When the LF of a last CR lies just beyond the end, the line before it is framed all the same.
  lemma {:induction false} StraddlingLine(s: string, lines: seq<string>, at: nat)
    requires AllCRFree(lines) && lines != [] && Joined(lines) == s + [LF]
    ensures Frames(s, LF, at) == ViewsOf(lines, at)
    decreases |lines|
  {
    hide ViewLength, CRFree, Frames;
    var line, more := lines[0], lines[1..];
    assert s + [LF] == line + CRLF + Joined(more) && CRFree(line);
    if more == [] {
      assert line + [CR] + [LF] == line + CRLF + "";
      WithoutLast(s, line + [CR], [LF]);
      assert s == line + [CR] && ViewsOf(more, at + |line| + 2) == [];
      FrameOfLastCR(line, at);
    } else {
      JoinedFirst(more, "");
      var rest := s[|line| + 2..];
      WithoutLast(s, line + CRLF, Joined(more));
      StraddlingLine(rest, more, at + |line| + 2);
      FrameOfLine(line, rest, LF, at);
    }
  }

  lemma WithoutLast(s: string, front: string, back: string)
    requires s + [LF] == front + back && |back| > 0
    ensures |front| <= |s| && s == front + s[|front|..] && s[|front|..] + [LF] == back
  {
    assert |s| + 1 == |front| + |back|;
    assert s == (front + back)[..|s|];
    assert back == (s + [LF])[|front|..];
  }

  lemma FrameOfLastCR(line: string, at: nat)
    requires CRFree(line)
    ensures Frames(line + [CR], LF, at) == [View(at, ViewLength(|line|))]
  {
    hide ViewLength;
    FirstCRIs(line + [CR], |line|);
  }

  lemma {:induction false} ViewsCount(lines: seq<string>, at: nat)
    ensures |ViewsOf(lines, at)| == |lines|
    decreases |lines|
  {
    if lines != [] {
      ViewsCount(lines[1..], at + |lines[0]| + 2);
    }
  }

  // The i-th view starts at the i-th segment; its length is one less than the line's, wrapped.
  lemma {:induction false} ViewAt(lines: seq<string>, at: nat, i: nat)
    requires i < |lines|
    ensures |ViewsOf(lines, at)| == |lines|
    ensures ViewsOf(lines, at)[i] == View(at + |Joined(lines[..i])|, ViewLength(|lines[i]|))
    decreases i
  {
    ViewsCount(lines, at);
    if i == 0 {
      assert lines[..0] == [];
    } else {
      ViewAt(lines[1..], at + |lines[0]| + 2, i - 1);
      assert lines[..i][0] == lines[0] && lines[..i][1..] == lines[1..][..i - 1];
    }
  }

  lemma {:induction false} SegmentAt(lines: seq<string>, i: nat)
    requires i < |lines|
    ensures |Joined(lines[..i])| + |lines[i]| + 2 <= |Joined(lines)|
    ensures Joined(lines)[|Joined(lines[..i])|..|Joined(lines[..i])| + |lines[i]|] == lines[i]
    decreases i
  {
    hide Joined;
    JoinedOfFirst(lines);
    var front, rest := lines[0] + CRLF, Joined(lines[1..]);
    if i == 0 {
      JoinedOfNone(lines[..0]);
      assert (front + rest)[0..|lines[0]|] == lines[0];
    } else {
      SegmentAt(lines[1..], i - 1);
      JoinedOfFirst(lines[..i]);
      assert lines[..i][0] == lines[0] && lines[..i][1..] == lines[1..][..i - 1];
      SliceAfter(front, rest, |Joined(lines[1..][..i - 1])|, |lines[i]|);
    }
  }

  lemma JoinedOfNone(lines: seq<string>)
    requires lines == []
    ensures Joined(lines) == ""
  {
  }

  lemma JoinedOfFirst(lines: seq<string>)
    requires lines != []
    ensures Joined(lines) == lines[0] + CRLF + Joined(lines[1..])
  {
  }

  lemma SliceAfter(front: string, rest: string, start: nat, length: nat)
    requires start + length <= |rest|
    ensures (front + rest)[|front| + start..|front| + start + length] == rest[start..start + length]
  {
  }

  /**
   * What a frame views: in a text that stands after `front`, the i-th frame stays within the text
   * iff its line is not empty, and it then views the line without its last byte.
   */
  lemma ViewedBytes(front: string, lines: seq<string>, tail: string, i: nat)
    requires i < |lines| && |front + Joined(lines) + tail| < SIZE_MODULUS - 1
    ensures |ViewsOf(lines, |front|)| == |lines|
    ensures var text := front + Joined(lines) + tail;
            var v := ViewsOf(lines, |front|)[i];
            && (v.start + v.length <= |text| <==> lines[i] != "")
            && (lines[i] != "" ==> text[v.start..v.start + v.length] == lines[i][..|lines[i]| - 1])
  {
    hide ViewsOf, Joined;
    ViewAt(lines, |front|, i);
    SegmentAt(lines, i);
    var joined, start, n := Joined(lines), |Joined(lines[..i])|, |lines[i]|;
    if n > 0 {
      assert joined[start..start + n][..n - 1] == joined[start..start + n - 1];
      SliceBetween(front, joined, tail, start, n - 1);
    }
  }

  lemma SliceBetween(front: string, joined: string, tail: string, start: nat, length: nat)
    requires start + length <= |joined|
    ensures (front + joined + tail)[|front| + start..|front| + start + length] == joined[start..start + length]
  {
    SliceAfter(front, joined + tail, start, length);
    assert (joined + tail)[start..start + length] == joined[start..start + length];
    assert front + joined + tail == front + (joined + tail);
  }

  // The frame of an empty line does not stay within any text that fits in memory.
  lemma EmptyLineLeavesTheText(after: char)
    ensures Frames("\r\n", after, 0) == [View(0, SIZE_MODULUS - 1)]
  {
    assert "" + CRLF + "" == "\r\n";
    FrameOfLine("", "", after, 0);
  }

  // The same for what the decoder finds in memory, the byte at `end` included.
  lemma DecodedBytes(mem: array<char>, begin: nat, end: nat, lines: seq<string>, tail: string, i: nat)
    requires begin <= end < mem.Length < SIZE_MODULUS - 2
    requires SplitsInto(mem[begin..end], mem[end], lines, tail) && i < |lines|
    ensures |Frames(mem[begin..end], mem[end], begin)| == |lines|
    ensures var v := Frames(mem[begin..end], mem[end], begin)[i];
            && (v.start + v.length <= end <==> lines[i] != "")
            && (lines[i] != "" ==> mem[v.start..v.start + v.length] == lines[i][..|lines[i]| - 1])
  {
    hide Frames, ViewsOf, Blocked, AllCRFree, ViewLength, Joined;
    FramesAreTheLines(mem[begin..end], mem[end], lines, tail, begin);
    var front := mem[..begin];
    var last := if Blocked(tail, mem[end]) && mem[begin..end] == Joined(lines) + tail then end else end + 1;
    assert mem[begin..last] == Joined(lines) + tail by {
      assert mem[begin..end + 1] == mem[begin..end] + [mem[end]];
      assert last == end + 1 ==> Joined(lines) + tail == Joined(lines);
    }
    FrontAndRest(mem, begin, last, Joined(lines), tail);
    ViewedBytes(front, lines, tail, i);
    var v := ViewsOf(lines, begin)[i];
    InsideLine(lines, begin, i);
    if lines[i] != "" {
      MemorySlice(mem, last, v.start, v.length);
    }
  }

  lemma FrontAndRest(mem: array<char>, begin: nat, last: nat, joined: string, tail: string)
    requires begin <= last <= mem.Length && mem[begin..last] == joined + tail
    ensures mem[..last] == mem[..begin] + joined + tail
  {
    assert mem[..last] == mem[..begin] + mem[begin..last];
    assert mem[..begin] + joined + tail == mem[..begin] + (joined + tail);
  }

  lemma MemorySlice(mem: array<char>, last: nat, start: nat, length: nat)
    requires start + length <= last <= mem.Length
    ensures mem[..last][start..start + length] == mem[start..start + length]
  {
  }

  // A frame of a line that is not empty ends at least three bytes before the segments do.
  lemma InsideLine(lines: seq<string>, at: nat, i: nat)
    requires i < |lines| && at + |Joined(lines)| < SIZE_MODULUS
    ensures |ViewsOf(lines, at)| == |lines|
    ensures var v := ViewsOf(lines, at)[i];
            if lines[i] == "" then v.length == SIZE_MODULUS - 1 else v.start + v.length + 3 <= at + |Joined(lines)|
  {
    ViewAt(lines, at, i);
    SegmentAt(lines, i);
  }

  /**
   * Resuming: when a is consumed to its end, decoding a followed by b gives the frames of a and
   * then those of b, shifted by the length of a.
   */
  lemma DecodeInParts(lines: seq<string>, b: string, after: char, at: nat)
    requires AllCRFree(lines)
    ensures var a := Joined(lines);
            Frames(a + b, after, at) == Frames(a, ByteAfter(b, after, 0), at) + Frames(b, after, at + |a|)
  {
    hide Frames, ViewsOf;
    FramesOfLines(lines, b, after, at);
    FramesOfLines(lines, "", ByteAfter(b, after, 0), at);
    assert Joined(lines) + "" == Joined(lines);
    NoFrames("", ByteAfter(b, after, 0), at + |Joined(lines)|);
  }
}
