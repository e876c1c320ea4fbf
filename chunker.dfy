/** The chunking algorithm `splitText`: cut a text into pieces of at most
    `maxSize` bytes, preferring to cut after a sentence end, then at a
    paragraph break, then at a line break, then after a space, and making
    a hard cut at `maxSize` bytes when none of these qualifies. */
module Chunker {
  import opened GoStrings

  /** The bytes `.`, `!` and `?` that end a sentence. */
  const SentenceMarks: seq<Byte> := ".!?"
  const Paragraph: seq<Byte> := "\n\n"
  const Newline: seq<Byte> := "\n"
  const Blank: seq<Byte> := " "

  /** `w[i]` ends a sentence. */
  predicate MarkAt(w: seq<Byte>, i: int)
  {
    0 <= i < |w| && w[i] in SentenceMarks
  }

  /** `i` is the offset of the last sentence end in `w`. */
  ghost predicate IsLastMark(w: seq<Byte>, i: int)
  {
    MarkAt(w, i) && forall j :: i < j ==> !MarkAt(w, j)
  }

  /** `i` is the offset of the last occurrence of `sub` in `w`. */
  ghost predicate IsLast(w: seq<Byte>, sub: seq<Byte>, i: int)
  {
    HasAt(w, sub, i) && forall j :: i < j ==> !HasAt(w, sub, j)
  }

  /** Some sentence end in `w` lies above offset `t`. */
  ghost predicate MarkAbove(w: seq<Byte>, t: int)
  {
    exists i :: t < i && MarkAt(w, i)
  }

  /** Some occurrence of `sub` in `w` starts above offset `t`. */
  ghost predicate OccursAbove(w: seq<Byte>, sub: seq<Byte>, t: int)
  {
    exists i :: t < i && HasAt(w, sub, i)
  }

  /** The break-point policy for a window `w` of `maxSize` bytes, stated
      without reference to how break points are searched for. The kinds of
      break are tried in the fixed order sentence end (above `maxSize / 2`),
      paragraph break (above `maxSize / 3`), line break (above `maxSize / 3`),
      space (above `maxSize / 2`), with integer division; the first kind that
      occurs above its threshold decides, and the cut goes just after the
      LAST break of that kind. When no kind qualifies, the cut is at
      `maxSize`. */
  ghost predicate FollowsPolicy(w: seq<Byte>, maxSize: int, bp: int)
  {
    if MarkAbove(w, maxSize / 2) then
      maxSize / 2 < bp - 1 && IsLastMark(w, bp - 1)
    else if OccursAbove(w, Paragraph, maxSize / 3) then
      maxSize / 3 < bp - 2 && IsLast(w, Paragraph, bp - 2)
    else if OccursAbove(w, Newline, maxSize / 3) then
      maxSize / 3 < bp - 1 && IsLast(w, Newline, bp - 1)
    else if OccursAbove(w, Blank, maxSize / 2) then
      maxSize / 2 < bp - 1 && IsLast(w, Blank, bp - 1)
    else
      bp == maxSize
  }

  /** What `LastIndexAny` on the sentence marks says about the window. */
  lemma LastMarkAbove(w: seq<Byte>, t: int)
    ensures var r := LastIndexAny(w, SentenceMarks);
      && (r != -1 && r > t <==> MarkAbove(w, t))
      && (r != -1 ==> IsLastMark(w, r))
  {
    var r := LastIndexAny(w, SentenceMarks);
    if r != -1 {
      assert MarkAt(w, r);
    }
    if MarkAbove(w, t) {
      var i :| t < i && MarkAt(w, i);
      assert i <= r;
    }
  }

  /** What `LastIndex` says about the window. */
  lemma LastOccurrenceAbove(w: seq<Byte>, sub: seq<Byte>, t: int)
    ensures var r := LastIndex(w, sub);
      && (r != -1 && r > t <==> OccursAbove(w, sub, t))
      && (r != -1 ==> IsLast(w, sub, r))
  {
    var r := LastIndex(w, sub);
    if OccursAbove(w, sub, t) {
      var i :| t < i && HasAt(w, sub, i);
      assert i <= r;
    }
  }

  /** The offset at which the loop of `splitText` cuts `remaining`, found by
      searching the window `remaining[..maxSize]` from its end. It lies in
      `1..maxSize`, so every turn of the loop consumes at least one byte and
      emits at most `maxSize`. */
  function BreakPoint(remaining: seq<Byte>, maxSize: int): (bp: int)
    requires 1 <= maxSize < |remaining|
    ensures 1 <= bp <= maxSize
  {
    var chunk := remaining[..maxSize];
    var lastSentence := LastIndexAny(chunk, SentenceMarks);
    if lastSentence != -1 && lastSentence > maxSize / 2 then
      lastSentence + 1
    else
      var lastParagraph := LastIndex(chunk, Paragraph);
      if lastParagraph != -1 && lastParagraph > maxSize / 3 then
        lastParagraph + 2
      else
        var lastNewline := LastIndex(chunk, Newline);
        if lastNewline != -1 && lastNewline > maxSize / 3 then
          lastNewline + 1
        else
          var lastSpace := LastIndex(chunk, Blank);
          if lastSpace != -1 && lastSpace > maxSize / 2 then
            lastSpace + 1
          else
            maxSize
  }

  /** The searches from the end of the window implement the policy. */
  lemma BreakPointFollowsPolicy(remaining: seq<Byte>, maxSize: int)
    requires 1 <= maxSize < |remaining|
    ensures FollowsPolicy(remaining[..maxSize], maxSize, BreakPoint(remaining, maxSize))
  {
    var w := remaining[..maxSize];
    var lastSentence := LastIndexAny(w, SentenceMarks);
    LastMarkAbove(w, maxSize / 2);
    if lastSentence != -1 && lastSentence > maxSize / 2 {
      assert BreakPoint(remaining, maxSize) == lastSentence + 1;
    } else {
      LaterBreakFollowsPolicy(remaining, maxSize);
    }
  }

  /** The three searches after the one for sentence ends. */
  lemma LaterBreakFollowsPolicy(remaining: seq<Byte>, maxSize: int)
    requires 1 <= maxSize < |remaining|
    requires !MarkAbove(remaining[..maxSize], maxSize / 2)
    ensures FollowsPolicy(remaining[..maxSize], maxSize, BreakPoint(remaining, maxSize))
  {
    var w := remaining[..maxSize];
    LastMarkAbove(w, maxSize / 2);
    LastOccurrenceAbove(w, Paragraph, maxSize / 3);
    if OccursAbove(w, Paragraph, maxSize / 3) {
      assert BreakPoint(remaining, maxSize) == LastIndex(w, Paragraph) + 2;
    } else {
      LineOrWordFollowsPolicy(remaining, maxSize);
    }
  }

  /** The searches for a line break and for a space. */
  lemma LineOrWordFollowsPolicy(remaining: seq<Byte>, maxSize: int)
    requires 1 <= maxSize < |remaining|
    requires !MarkAbove(remaining[..maxSize], maxSize / 2)
    requires !OccursAbove(remaining[..maxSize], Paragraph, maxSize / 3)
    ensures FollowsPolicy(remaining[..maxSize], maxSize, BreakPoint(remaining, maxSize))
  {
    var w := remaining[..maxSize];
    LastMarkAbove(w, maxSize / 2);
    LastOccurrenceAbove(w, Paragraph, maxSize / 3);
    LastOccurrenceAbove(w, Newline, maxSize / 3);
    if OccursAbove(w, Newline, maxSize / 3) {
      assert BreakPoint(remaining, maxSize) == LastIndex(w, Newline) + 1;
    } else {
      WordFollowsPolicy(remaining, maxSize);
    }
  }

  /** The search for a space, and the hard cut. */
  lemma WordFollowsPolicy(remaining: seq<Byte>, maxSize: int)
    requires 1 <= maxSize < |remaining|
    requires !MarkAbove(remaining[..maxSize], maxSize / 2)
    requires !OccursAbove(remaining[..maxSize], Paragraph, maxSize / 3)
    requires !OccursAbove(remaining[..maxSize], Newline, maxSize / 3)
    ensures FollowsPolicy(remaining[..maxSize], maxSize, BreakPoint(remaining, maxSize))
  {
    var w := remaining[..maxSize];
    LastMarkAbove(w, maxSize / 2);
    LastOccurrenceAbove(w, Paragraph, maxSize / 3);
    LastOccurrenceAbove(w, Newline, maxSize / 3);
    LastOccurrenceAbove(w, Blank, maxSize / 2);
    if OccursAbove(w, Blank, maxSize / 2) {
      assert BreakPoint(remaining, maxSize) == LastIndex(w, Blank) + 1;
    } else {
      assert BreakPoint(remaining, maxSize) == maxSize;
    }
  }

  /** The policy leaves no choice: at most one break point follows it. */
  lemma PolicyDeterminesBreakPoint(w: seq<Byte>, maxSize: int, a: int, b: int)
    requires FollowsPolicy(w, maxSize, a) && FollowsPolicy(w, maxSize, b)
    ensures a == b
  {

  }

  /** What the loop of `splitText` appends to `chunks` from `remaining`
      onwards: nothing when `remaining` is empty, `remaining` itself when it
      fits, and otherwise the trimmed piece before the break point followed
      by the pieces of the trimmed rest. */
  function Pieces(remaining: seq<Byte>, maxSize: int): (chunks: seq<seq<Byte>>)
    requires maxSize >= 1
    ensures |remaining| > 0 ==> |chunks| >= 1
    ensures forall k :: 0 <= k < |chunks| ==> |chunks[k]| <= maxSize
    decreases |remaining|
  {
    if |remaining| == 0 then []
    else if |remaining| <= maxSize then [remaining]
    else
      var bp := BreakPoint(remaining, maxSize);
      [TrimSpace(remaining[..bp])] + Pieces(TrimSpace(remaining[bp..]), maxSize)
  }

  /** `splitText(text, maxSize)` as a function: a text that fits is returned
      whole and untrimmed; a longer one is cut by the loop. */
  function Split(text: seq<Byte>, maxSize: int): (chunks: seq<seq<Byte>>)
    requires maxSize >= 1
    ensures |chunks| >= 1
    ensures forall k :: 0 <= k < |chunks| ==> |chunks[k]| <= maxSize
    ensures |text| <= maxSize ==> chunks == [text]
  {
    if |text| <= maxSize then [text] else Pieces(text, maxSize)
  }

  /** The loop of `splitText`. `maxSize <= 0` has no guard in the source
      (zero loops forever on a text with a non-whitespace byte; a negative
      size panics on any non-empty text), so it is excluded here. */
  method SplitText(text: seq<Byte>, maxSize: int) returns (chunks: seq<seq<Byte>>)
    requires maxSize >= 1
    ensures chunks == Split(text, maxSize)
  {
    if |text| <= maxSize {
      return [text];
    }
    chunks := [];
    var remaining := text;
    while |remaining| > 0
      invariant chunks + Pieces(remaining, maxSize) == Split(text, maxSize)
      decreases |remaining|
    {
      if |remaining| <= maxSize {
        chunks := chunks + [remaining];
        break;
      }
      var breakPoint := BreakPoint(remaining, maxSize);
      chunks := chunks + [TrimSpace(remaining[..breakPoint])];
      remaining := TrimSpace(remaining[breakPoint..]);
    }
  }

  /** All chunks, joined without separators. */
  function Concat(chunks: seq<seq<Byte>>): seq<Byte>
  {
    if |chunks| == 0 then [] else chunks[0] + Concat(chunks[1..])
  }

  lemma ConcatOne(c: seq<Byte>)
    ensures Concat([c]) == c
  {
    assert [c][1..] == [];
    assert c + [] == c;
  }

  /** One turn of the loop. */
  lemma PiecesStep(remaining: seq<Byte>, maxSize: int)
    requires 1 <= maxSize < |remaining|
    ensures var bp := BreakPoint(remaining, maxSize);
      Pieces(remaining, maxSize) == [TrimSpace(remaining[..bp])] + Pieces(TrimSpace(remaining[bp..]), maxSize)
  {
  }

  /** The first chunk of a text longer than `maxSize` is the trimmed part
      before the one break point the policy allows in the first window. */
  lemma SplitFirstChunk(text: seq<Byte>, maxSize: int, bp: int)
    requires 1 <= maxSize < |text|
    requires FollowsPolicy(text[..maxSize], maxSize, bp)
    ensures Split(text, maxSize)[0] == TrimSpace(text[..bp])
  {
    BreakPointFollowsPolicy(text, maxSize);
    PolicyDeterminesBreakPoint(text[..maxSize], maxSize, bp, BreakPoint(text, maxSize));
  }

  /** A text longer than `maxSize` yields only trimmed chunks: the loop trims
      every piece it cuts, and its final chunk is a rest it has trimmed. */
  lemma {:induction false} PiecesTrimmed(remaining: seq<Byte>, maxSize: int)
    requires maxSize >= 1
    requires IsTrimmed(remaining) || |remaining| > maxSize
    ensures forall k :: 0 <= k < |Pieces(remaining, maxSize)| ==> IsTrimmed(Pieces(remaining, maxSize)[k])
    decreases |remaining|
  {
    if |remaining| > maxSize {
      var bp := BreakPoint(remaining, maxSize);
      PiecesTrimmed(TrimSpace(remaining[bp..]), maxSize);
    }
  }

  lemma SplitTrimmed(text: seq<Byte>, maxSize: int)
    requires maxSize >= 1 && |text| > maxSize
    ensures forall k :: 0 <= k < |Split(text, maxSize)| ==> TrimSpace(Split(text, maxSize)[k]) == Split(text, maxSize)[k]
  {
    PiecesTrimmed(text, maxSize);
    forall k | 0 <= k < |Split(text, maxSize)| {
      TrimSpaceFixpoint(Split(text, maxSize)[k]);
    }
  }

  /** From a trimmed `remaining` the loop never emits an empty chunk. */
  lemma {:induction false} PiecesNonEmpty(remaining: seq<Byte>, maxSize: int)
    requires maxSize >= 1 && IsTrimmed(remaining)
    ensures forall k :: 0 <= k < |Pieces(remaining, maxSize)| ==> Pieces(remaining, maxSize)[k] != []
    decreases |remaining|
  {
    if |remaining| > maxSize {
      var bp := BreakPoint(remaining, maxSize);
      var piece := remaining[..bp];
      assert !IsSpace(piece[0]);
      TrimSpaceEmpty(piece);
      PiecesNonEmpty(TrimSpace(remaining[bp..]), maxSize);
    }
  }

  /** A non-empty trimmed text, as the line-mode front end passes it, is
      split into non-empty chunks only. */
  lemma SplitNonEmptyChunks(text: seq<Byte>, maxSize: int)
    requires maxSize >= 1 && IsTrimmed(text) && |text| > 0
    ensures forall k :: 0 <= k < |Split(text, maxSize)| ==> Split(text, maxSize)[k] != []
  {
    PiecesNonEmpty(text, maxSize);
  }

  /** No occurrence of `sub` starts above `t` when no byte there is the
      first byte of `sub`. */
  lemma NoOccurrenceAbove(w: seq<Byte>, sub: seq<Byte>, t: int)
    requires |sub| > 0
    requires forall j :: 0 <= j < |w| && t < j ==> w[j] != sub[0]
    ensures !OccursAbove(w, sub, t)
  {
    forall j | t < j && HasAt(w, sub, j)
      ensures false
    {
      HasAtFirst(w, sub, j);
    }
  }

  /** A window of two blanks is cut hard at its end: the only blank above
      half the size would have to lie beyond the window. */
  lemma BlankWindowHardCut(text: seq<Byte>)
    requires |text| > 2 && text[0] == ' ' && text[1] == ' '
    ensures BreakPoint(text, 2) == 2
  {
    var w := text[..2];
    assert !MarkAbove(w, 1);
    NoOccurrenceAbove(w, Paragraph, 0);
    NoOccurrenceAbove(w, Newline, 0);
    NoOccurrenceAbove(w, Blank, 1);
    BreakPointFollowsPolicy(text, 2);
  }

  /** Trimming the rest " x" of that text leaves "x". */
  lemma TrimBlankX()
    ensures TrimSpace(" x") == "x"
  {
    var tail: seq<Byte> := " x";
    var x: seq<Byte> := "x";
    assert tail == [' '] + x;
    TrimSpaceFixpoint(x);
    assert TrimLeft(tail) == TrimLeft(x);
  }

  /** An untrimmed text can yield an empty first chunk: the window holds
      only blanks, so the hard cut takes nothing but whitespace. */
  lemma EmptyFirstChunk()
    ensures Split("   x", 2) == ["", "x"]
  {
    var text: seq<Byte> := "   x";
    BlankWindowHardCut(text);
    var head: seq<Byte> := "  ";
    assert text[..2] == head;
    assert AllSpace(head);
    TrimSpaceEmpty(head);
    assert text[2..] == " x";
    TrimBlankX();
    assert Pieces("x", 2) == ["x"];
    PiecesStep(text, 2);
  }

  /** The loop keeps every non-whitespace byte, in order. */
  lemma {:induction false} PiecesKeepContent(remaining: seq<Byte>, maxSize: int)
    requires maxSize >= 1
    ensures RemoveSpace(Concat(Pieces(remaining, maxSize))) == RemoveSpace(remaining)
    decreases |remaining|
  {
    if |remaining| == 0 {
    } else if |remaining| <= maxSize {
      ConcatOne(remaining);
    } else {
      var bp := BreakPoint(remaining, maxSize);
      var rest := Pieces(TrimSpace(remaining[bp..]), maxSize);
      PiecesKeepContent(TrimSpace(remaining[bp..]), maxSize);
      PiecesStep(remaining, maxSize);
      ConcatCons(TrimSpace(remaining[..bp]), rest);
      CutKeepsContent(remaining, bp, Concat(rest));
    }
  }

  lemma ConcatCons(c: seq<Byte>, rest: seq<seq<Byte>>)
    ensures Concat([c] + rest) == c + Concat(rest)
  {
    assert ([c] + rest)[0] == c;
    assert ([c] + rest)[1..] == rest;
  }

  /** One cut keeps the non-whitespace bytes: those of the trimmed piece
      before `bp`, then those of whatever keeps the content of the trimmed
      rest, are those of `remaining`. */
  lemma CutKeepsContent(remaining: seq<Byte>, bp: int, restJoined: seq<Byte>)
    requires 0 <= bp <= |remaining|
    requires RemoveSpace(restJoined) == RemoveSpace(TrimSpace(remaining[bp..]))
    ensures RemoveSpace(TrimSpace(remaining[..bp]) + restJoined) == RemoveSpace(remaining)
  {
    var head, tail := remaining[..bp], remaining[bp..];
    RemoveSpaceAppend(TrimSpace(head), restJoined);
    RemoveSpaceTrim(head);
    RemoveSpaceTrim(tail);
    RemoveSpaceAppend(head, tail);
    assert head + tail == remaining;
  }

  /** Deleting all whitespace from the joined chunks gives the input with all
      whitespace deleted: no other byte is lost, duplicated or reordered. */
  lemma SplitKeepsContent(text: seq<Byte>, maxSize: int)
    requires maxSize >= 1
    ensures RemoveSpace(Concat(Split(text, maxSize))) == RemoveSpace(text)
  {
    if |text| <= maxSize {
      ConcatOne(text);
    } else {
      PiecesKeepContent(text, maxSize);
    }
  }

  /** `chunks` in order with `gaps[k]` before `chunks[k]` and the last gap
      after the last chunk. */
  function Interleave(gaps: seq<seq<Byte>>, chunks: seq<seq<Byte>>): seq<Byte>
    requires |gaps| == |chunks| + 1
    decreases |chunks|
  {
    if |chunks| == 0 then gaps[0] else gaps[0] + chunks[0] + Interleave(gaps[1..], chunks[1..])
  }

  predicate AllGapsSpace(gaps: seq<seq<Byte>>)
  {
    forall k :: 0 <= k < |gaps| ==> AllSpace(gaps[k])
  }

  lemma AllSpaceAppend(x: seq<Byte>, y: seq<Byte>)
    requires AllSpace(x) && AllSpace(y)
    ensures AllSpace(x + y)
  {
    forall i | 0 <= i < |x + y|
      ensures IsSpace((x + y)[i])
    {
      if i < |x| { assert (x + y)[i] == x[i]; } else { assert (x + y)[i] == y[i - |x|]; }
    }
  }

  /** Bytes after the interleaving join its last gap. */
  lemma {:induction false} InterleaveAppendLast(gaps: seq<seq<Byte>>, chunks: seq<seq<Byte>>, d: seq<Byte>)
    requires |gaps| == |chunks| + 1
    ensures Interleave(gaps, chunks) + d == Interleave(gaps[..|chunks|] + [gaps[|chunks|] + d], chunks)
    decreases |chunks|
  {
    var g := gaps[..|chunks|] + [gaps[|chunks|] + d];
    if |chunks| > 0 {
      InterleaveAppendLast(gaps[1..], chunks[1..], d);
      assert g[0] == gaps[0];
      assert g[1..] == gaps[1..][..|chunks| - 1] + [gaps[1..][|chunks| - 1] + d];
    }
  }

  /** Bytes before the interleaving join its first gap. */
  lemma InterleavePrepend(x: seq<Byte>, gaps: seq<seq<Byte>>, chunks: seq<seq<Byte>>)
    requires |gaps| == |chunks| + 1
    ensures x + Interleave(gaps, chunks) == Interleave([x + gaps[0]] + gaps[1..], chunks)
  {
    var g := [x + gaps[0]] + gaps[1..];
    assert g[1..] == gaps[1..];
  }

  /** `s` is whitespace, then `TrimSpace(s)`, then whitespace. */
  lemma TrimSurround(s: seq<Byte>) returns (lead: seq<Byte>, trail: seq<Byte>)
    ensures s == lead + TrimSpace(s) + trail && AllSpace(lead) && AllSpace(trail)
  {
    var r := TrimSpace(s);
    var i := TrimSpaceParts(s);
    lead, trail := s[..i], s[i + |r|..];
    assert s == lead + r + trail;
  }

  /** Whitespace `b + c` between a piece and the interleaved rest, and
      whitespace `d` after it, join the neighbouring gaps. */
  lemma JoinInterleave(a: seq<Byte>, piece: seq<Byte>, b: seq<Byte>, c: seq<Byte>, d: seq<Byte>,
                       gaps: seq<seq<Byte>>, rest: seq<seq<Byte>>)
      returns (gaps2: seq<seq<Byte>>)
    requires |gaps| == |rest| + 1 && AllGapsSpace(gaps)
    requires AllSpace(a) && AllSpace(b) && AllSpace(c) && AllSpace(d)
    ensures |gaps2| == |rest| + 2 && AllGapsSpace(gaps2)
    ensures Interleave(gaps2, [piece] + rest) == a + piece + (b + c + Interleave(gaps, rest) + d)
  {
    InterleaveAppendLast(gaps, rest, d);
    var g1 := gaps[..|rest|] + [gaps[|rest|] + d];
    AllSpaceAppend(gaps[|rest|], d);
    assert AllGapsSpace(g1);
    InterleavePrepend(b + c, g1, rest);
    var g2 := [b + c + g1[0]] + g1[1..];
    AllSpaceAppend(b, c);
    AllSpaceAppend(b + c, g1[0]);
    assert AllGapsSpace(g2);
    gaps2 := [a] + g2;
    var cs := [piece] + rest;
    assert gaps2[1..] == g2 && cs[1..] == rest;
  }

  lemma SeqRegroup(a: seq<Byte>, p: seq<Byte>, b: seq<Byte>, t: seq<Byte>)
    ensures (a + p + b) + t == a + p + (b + t)
  {
  }

  /** A piece and a rest, each trimmed, with the chunks of the trimmed rest
      interleaved in it, interleave with whitespace to `head + tail`. */
  lemma TrimmedPairInterleave(head: seq<Byte>, tail: seq<Byte>, gaps: seq<seq<Byte>>, rest: seq<seq<Byte>>)
      returns (gaps2: seq<seq<Byte>>)
    requires |gaps| == |rest| + 1 && AllGapsSpace(gaps)
    requires Interleave(gaps, rest) == TrimSpace(tail)
    ensures |gaps2| == |rest| + 2 && AllGapsSpace(gaps2)
    ensures Interleave(gaps2, [TrimSpace(head)] + rest) == head + tail
  {
    var a, b := TrimSurround(head);
    var c, d := TrimSurround(tail);
    var piece, mid := TrimSpace(head), Interleave(gaps, rest);
    gaps2 := JoinInterleave(a, piece, b, c, d, gaps, rest);
    SeqRegroup(a, piece, b, c + mid + d);
    assert b + (c + mid + d) == b + c + mid + d;
  }

  /** One cut: if the chunks of the trimmed rest interleave with whitespace to
      that rest, the trimmed piece before `bp` and those chunks interleave
      with whitespace to all of `remaining`. */
  lemma CutInterleave(remaining: seq<Byte>, bp: int, gaps: seq<seq<Byte>>, rest: seq<seq<Byte>>)
      returns (gaps2: seq<seq<Byte>>)
    requires 0 <= bp <= |remaining|
    requires |gaps| == |rest| + 1 && AllGapsSpace(gaps)
    requires Interleave(gaps, rest) == TrimSpace(remaining[bp..])
    ensures |gaps2| == |rest| + 2 && AllGapsSpace(gaps2)
    ensures Interleave(gaps2, [TrimSpace(remaining[..bp])] + rest) == remaining
  {
    gaps2 := TrimmedPairInterleave(remaining[..bp], remaining[bp..], gaps, rest);
    assert remaining[..bp] + remaining[bp..] == remaining;
  }

  /** The loop's chunks, in order, with only whitespace around and between
      them, make up `remaining`. */
  lemma {:induction false} PiecesInterleave(remaining: seq<Byte>, maxSize: int) returns (gaps: seq<seq<Byte>>)
    requires maxSize >= 1
    ensures |gaps| == |Pieces(remaining, maxSize)| + 1 && AllGapsSpace(gaps)
    ensures Interleave(gaps, Pieces(remaining, maxSize)) == remaining
    decreases |remaining|
  {
    if |remaining| <= maxSize {
      gaps := FitsInterleave(remaining, maxSize);
    } else {
      var bp := BreakPoint(remaining, maxSize);
      var rest := TrimSpace(remaining[bp..]);
      var g := PiecesInterleave(rest, maxSize);
      PiecesStep(remaining, maxSize);
      gaps := CutInterleave(remaining, bp, g, Pieces(rest, maxSize));
    }
  }

  lemma FitsInterleave(remaining: seq<Byte>, maxSize: int) returns (gaps: seq<seq<Byte>>)
    requires 1 <= maxSize && |remaining| <= maxSize
    ensures |gaps| == |Pieces(remaining, maxSize)| + 1 && AllGapsSpace(gaps)
    ensures Interleave(gaps, Pieces(remaining, maxSize)) == remaining
  {
    if |remaining| == 0 {
      gaps := [[]];
    } else {
      gaps := [[], []];
      var cs := [remaining];
      assert gaps[1..] == [[]] && cs[1..] == [];
      assert remaining + [] == remaining;
    }
  }

  /** Every chunk is a contiguous piece of the text, and the chunks, in
      order, cover the text with only whitespace before, between and after
      them: `gaps[k]` is the whitespace dropped before chunk `k`. */
  lemma SplitInterleave(text: seq<Byte>, maxSize: int) returns (gaps: seq<seq<Byte>>)
    requires maxSize >= 1
    ensures |gaps| == |Split(text, maxSize)| + 1
    ensures forall k :: 0 <= k < |gaps| ==> AllSpace(gaps[k])
    ensures Interleave(gaps, Split(text, maxSize)) == text
  {
    if |text| <= maxSize {
      gaps := [[], []];
      var cs := [text];
      assert gaps[1..] == [[]] && cs[1..] == [];
      assert text + [] == text;
    } else {
      gaps := PiecesInterleave(text, maxSize);
    }
  }

  /** When some sentence end lies above half the size, the cut follows the
      last sentence end of the window. */
  lemma SentenceBreak(remaining: seq<Byte>, maxSize: int)
    requires 1 <= maxSize < |remaining|
    requires MarkAbove(remaining[..maxSize], maxSize / 2)
    ensures IsLastMark(remaining[..maxSize], BreakPoint(remaining, maxSize) - 1)
  {
    BreakPointFollowsPolicy(remaining, maxSize);
  }

  /** Sentence priority: when the last sentence end in the window lies above
      half the size, the first chunk ends with it, whatever paragraph breaks,
      newlines or spaces come after it. */
  lemma SentenceEndWins(text: seq<Byte>, maxSize: int, i: int)
    requires 1 <= maxSize < |text|
    requires maxSize / 2 < i < maxSize && text[i] in SentenceMarks
    requires forall j :: i < j < maxSize ==> text[j] !in SentenceMarks
    ensures Split(text, maxSize)[0] == TrimSpace(text[..i + 1])
  {
    var w := text[..maxSize];
    assert MarkAt(w, i);
    assert IsLastMark(w, i);
    assert FollowsPolicy(w, maxSize, i + 1);
    SplitFirstChunk(text, maxSize, i + 1);
  }

  /** Fallback: with no sentence end above half the size, no newline (so in
      particular no paragraph break) above a third of the size and no space
      above half the size, the first chunk is the first `maxSize` bytes,
      trimmed. */
  lemma HardCutFallback(text: seq<Byte>, maxSize: int)
    requires 1 <= maxSize < |text|
    requires forall j :: maxSize / 2 < j < maxSize ==> text[j] !in SentenceMarks
    requires forall j :: maxSize / 3 < j < maxSize ==> text[j] != '\n'
    requires forall j :: maxSize / 2 < j < maxSize ==> text[j] != ' '
    ensures Split(text, maxSize)[0] == TrimSpace(text[..maxSize])
  {
    var w := text[..maxSize];
    assert !MarkAbove(w, maxSize / 2);
    NoOccurrenceAbove(w, Paragraph, maxSize / 3);
    NoOccurrenceAbove(w, Newline, maxSize / 3);
    NoOccurrenceAbove(w, Blank, maxSize / 2);
    BreakPointFollowsPolicy(text, maxSize);
  }

  /** No whitespace and no sentence ends anywhere. */
  predicate NoBreakBytes(s: seq<Byte>)
  {
    forall i :: 0 <= i < |s| ==> !IsSpace(s[i]) && s[i] !in SentenceMarks
  }

  /** Both parts of a text without break bytes are without break bytes,
      and trimmed. */
  lemma NoBreakBytesParts(s: seq<Byte>, n: int)
    requires 0 <= n <= |s| && NoBreakBytes(s)
    ensures NoBreakBytes(s[..n]) && NoBreakBytes(s[n..])
    ensures IsTrimmed(s[..n]) && IsTrimmed(s[n..])
  {
    assert forall i :: 0 <= i < |s| - n ==> s[n..][i] == s[n + i];
  }

  /** Without break bytes the loop always cuts hard at `maxSize`. */
  lemma NoBreakBytesHardCut(remaining: seq<Byte>, maxSize: int)
    requires 1 <= maxSize < |remaining| && NoBreakBytes(remaining)
    ensures BreakPoint(remaining, maxSize) == maxSize
  {
    var w := remaining[..maxSize];
    assert !MarkAbove(w, maxSize / 2);
    NoOccurrenceAbove(w, Paragraph, maxSize / 3);
    NoOccurrenceAbove(w, Newline, maxSize / 3);
    NoOccurrenceAbove(w, Blank, maxSize / 2);
    BreakPointFollowsPolicy(remaining, maxSize);
  }

  /** One turn of the loop on a text without break bytes: a hard cut that
      trims nothing. */
  lemma HardCutStep(text: seq<Byte>, maxSize: int)
    requires 1 <= maxSize < |text| && NoBreakBytes(text)
    ensures Pieces(text, maxSize) == [text[..maxSize]] + Pieces(text[maxSize..], maxSize)
    ensures NoBreakBytes(text[maxSize..])
  {
    NoBreakBytesHardCut(text, maxSize);
    NoBreakBytesParts(text, maxSize);
    TrimSpaceFixpoint(text[..maxSize]);
    TrimSpaceFixpoint(text[maxSize..]);
    PiecesStep(text, maxSize);
  }

  /** A text without any break byte is cut into consecutive pieces of exactly
      `maxSize` bytes each, followed by one last non-empty piece of at most
      `maxSize` bytes; joined, they give the text back. */
  lemma {:induction false} PiecesHardCutsOnly(text: seq<Byte>, maxSize: int)
    requires maxSize >= 1 && |text| > 0 && NoBreakBytes(text)
    ensures var chunks := Pieces(text, maxSize);
      && |chunks| > 0
      && Concat(chunks) == text
      && (forall k :: 0 <= k < |chunks| - 1 ==> |chunks[k]| == maxSize)
      && 0 < |chunks[|chunks| - 1]| <= maxSize
    decreases |text|
  {
    if |text| <= maxSize {
      ConcatOne(text);
    } else {
      var head, tail := text[..maxSize], text[maxSize..];
      HardCutStep(text, maxSize);
      PiecesHardCutsOnly(tail, maxSize);
      var rest := Pieces(tail, maxSize);
      var chunks := [head] + rest;
      assert Pieces(text, maxSize) == chunks;
      assert chunks[0] == head && chunks[1..] == rest;
      assert Concat(chunks) == head + Concat(rest);
      assert head + tail == text;
      assert chunks[|chunks| - 1] == rest[|rest| - 1];
      forall k | 0 <= k < |chunks| - 1
        ensures |chunks[k]| == maxSize
      {
        if k > 0 {
          assert chunks[k] == rest[k - 1];
        }
      }
    }
  }

  lemma SplitHardCutsOnly(text: seq<Byte>, maxSize: int)
    requires maxSize >= 1 && |text| > 0 && NoBreakBytes(text)
    ensures var chunks := Split(text, maxSize);
      && Concat(chunks) == text
      && (forall k :: 0 <= k < |chunks| - 1 ==> |chunks[k]| == maxSize)
      && 0 < |chunks[|chunks| - 1]| <= maxSize
  {
    if |text| <= maxSize {
      ConcatOne(text);
    } else {
      PiecesHardCutsOnly(text, maxSize);
    }
  }
}
