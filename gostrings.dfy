/** Byte strings and the few functions of Go's `strings` package that the
    chunker uses: `TrimSpace`, `LastIndex` and `LastIndexAny`. */
module GoStrings {

  /** One byte of a Go string. A Go string is a sequence of bytes; here each
      byte is a `char` whose code is below 256, so that ASCII literals read
      as they do in the Go source. */
  type Byte = c: char | c as int < 256

  /** The ASCII whitespace set of Go's `strings.TrimSpace`:
      tab, newline, vertical tab, form feed, carriage return and space. */
  predicate IsSpace(b: Byte)
  {
    b == '\t' || b == '\n' || b as int == 11 || b as int == 12 || b == '\r' || b == ' '
  }

  predicate AllSpace(s: seq<Byte>)
  {
    forall i :: 0 <= i < |s| ==> IsSpace(s[i])
  }

  /** No leading and no trailing whitespace. */
  predicate IsTrimmed(s: seq<Byte>)
  {
    |s| == 0 || (!IsSpace(s[0]) && !IsSpace(s[|s| - 1]))
  }

  /** `s` with its leading whitespace removed. */
  function TrimLeft(s: seq<Byte>): (r: seq<Byte>)
    ensures |r| <= |s|
    ensures |r| == 0 || !IsSpace(r[0])
  {
    if |s| > 0 && IsSpace(s[0]) then TrimLeft(s[1..]) else s
  }

  /** TrimLeft keeps a suffix of `s` and removes whitespace only. */
  lemma {:induction false} TrimLeftRemovesSpace(s: seq<Byte>)
    ensures TrimLeft(s) == s[|s| - |TrimLeft(s)|..]
    ensures AllSpace(s[..|s| - |TrimLeft(s)|])
  {
    if |s| > 0 && IsSpace(s[0]) {
      TrimLeftRemovesSpace(s[1..]);
      assert s[1..][|s| - 1 - |TrimLeft(s[1..])|..] == s[|s| - |TrimLeft(s)|..];
      assert s[..|s| - |TrimLeft(s)|] == [s[0]] + s[1..][..|s| - 1 - |TrimLeft(s[1..])|];
    }
  }

  /** `s` with its trailing whitespace removed. */
  function TrimRight(s: seq<Byte>): (r: seq<Byte>)
    ensures |r| <= |s|
    ensures |r| == 0 || !IsSpace(r[|r| - 1])
  {
    if |s| > 0 && IsSpace(s[|s| - 1]) then TrimRight(s[..|s| - 1]) else s
  }

  /** TrimRight keeps a prefix of `s` and removes whitespace only. */
  lemma {:induction false} TrimRightRemovesSpace(s: seq<Byte>)
    ensures TrimRight(s) == s[..|TrimRight(s)|]
    ensures AllSpace(s[|TrimRight(s)|..])
  {
    if |s| > 0 && IsSpace(s[|s| - 1]) {
      TrimRightRemovesSpace(s[..|s| - 1]);
      assert s[..|s| - 1][..|TrimRight(s[..|s| - 1])|] == s[..|TrimRight(s)|];
      assert s[|TrimRight(s)|..] == s[..|s| - 1][|TrimRight(s[..|s| - 1])|..] + [s[|s| - 1]];
    }
  }

  /** Go's `strings.TrimSpace` on ASCII text: the contiguous part of `s`
      left after removing all leading and all trailing whitespace (see
      TrimSpaceParts). */
  function TrimSpace(s: seq<Byte>): (r: seq<Byte>)
    ensures IsTrimmed(r)
    ensures |r| <= |s|
  {
    TrimRightRemovesSpace(TrimLeft(s));
    TrimRight(TrimLeft(s))
  }

  /** `s` is whitespace, then `TrimSpace(s)`, then whitespace; `lead` is the
      length of the leading whitespace. */
  lemma TrimSpaceParts(s: seq<Byte>) returns (lead: int)
    ensures var r := TrimSpace(s);
      && 0 <= lead <= |s| - |r| && r == s[lead..lead + |r|]
      && AllSpace(s[..lead]) && AllSpace(s[lead + |r|..])
  {
    var l := TrimLeft(s);
    var r := TrimRight(l);
    lead := |s| - |l|;
    TrimLeftRemovesSpace(s);
    TrimRightRemovesSpace(l);
    assert r == s[lead..lead + |r|];
    assert s[lead + |r|..] == l[|r|..];
  }

  /** A whitespace-only string trims to nothing, and a string that trims to
      nothing is whitespace only. */
  lemma TrimSpaceEmpty(s: seq<Byte>)
    ensures |TrimSpace(s)| == 0 <==> AllSpace(s)
  {
    var r := TrimSpace(s);
    var i := TrimSpaceParts(s);
    if |r| == 0 {
      assert s == s[..i] + s[i..];
    } else {
      assert !IsSpace(s[i]);
    }
  }

  /** TrimSpace leaves a string alone exactly when it is already trimmed;
      in particular TrimSpace is idempotent. */
  lemma TrimSpaceFixpoint(s: seq<Byte>)
    ensures TrimSpace(s) == s <==> IsTrimmed(s)
  {
    if IsTrimmed(s) && |s| > 0 {
      var r := TrimSpace(s);
      var i := TrimSpaceParts(s);
      assert i == 0;
      assert |r| == |s|;
    }
  }

  /** `sub` occurs in `s` starting at byte offset `i`. */
  predicate HasAt(s: seq<Byte>, sub: seq<Byte>, i: int)
  {
    0 <= i <= |s| - |sub| && s[i..i + |sub|] == sub
  }

  /** An occurrence of `sub` starts with the first byte of `sub`. */
  lemma HasAtFirst(s: seq<Byte>, sub: seq<Byte>, i: int)
    requires HasAt(s, sub, i) && |sub| > 0
    ensures s[i] == sub[0]
  {
    assert s[i..i + |sub|][0] == s[i];
  }

  /** Go's `strings.LastIndex`: the offset of the last occurrence of `sub`
      in `s`, or -1 when there is none. */
  function LastIndex(s: seq<Byte>, sub: seq<Byte>): (r: int)
    ensures r == -1 || HasAt(s, sub, r)
    ensures r == -1 ==> forall i :: !HasAt(s, sub, i)
    ensures forall i :: r < i ==> !HasAt(s, sub, i)
  {
    if |s| < |sub| then -1
    else if s[|s| - |sub|..] == sub then |s| - |sub|
    else
      var r := LastIndex(s[..|s| - 1], sub);
      assert forall i :: HasAt(s, sub, i) && i != |s| - |sub| ==> HasAt(s[..|s| - 1], sub, i) by {
        forall i | HasAt(s, sub, i) && i != |s| - |sub|
          ensures HasAt(s[..|s| - 1], sub, i)
        {
          assert s[..|s| - 1][i..i + |sub|] == s[i..i + |sub|];
        }
      }
      assert r != -1 ==> s[..|s| - 1][r..r + |sub|] == s[r..r + |sub|];
      r
  }

  /** Go's `strings.LastIndexAny`: the offset of the last byte of `s` that is
      one of `chars`, or -1 when there is none. (For ASCII `chars` the rune
      decoding Go performs finds the same offset.) */
  function LastIndexAny(s: seq<Byte>, chars: seq<Byte>): (r: int)
    ensures -1 <= r < |s|
    ensures r >= 0 ==> s[r] in chars
    ensures forall i :: r < i < |s| ==> s[i] !in chars
  {
    if |s| == 0 then -1
    else if s[|s| - 1] in chars then |s| - 1
    else
      var r := LastIndexAny(s[..|s| - 1], chars);
      assert forall i :: r < i < |s| - 1 ==> s[..|s| - 1][i] == s[i];
      r
  }

  /** The non-whitespace bytes of `s`, in order. */
  function RemoveSpace(s: seq<Byte>): (r: seq<Byte>)
    ensures |r| <= |s|
    ensures forall i :: 0 <= i < |r| ==> !IsSpace(r[i])
  {
    if |s| == 0 then []
    else if IsSpace(s[0]) then RemoveSpace(s[1..])
    else [s[0]] + RemoveSpace(s[1..])
  }

  lemma {:induction false} RemoveSpaceAppend(a: seq<Byte>, b: seq<Byte>)
    ensures RemoveSpace(a + b) == RemoveSpace(a) + RemoveSpace(b)
  {
    if a == [] {
      assert a + b == b;
    } else {
      assert (a + b)[0] == a[0];
      assert (a + b)[1..] == a[1..] + b;
      RemoveSpaceAppend(a[1..], b);
      if !IsSpace(a[0]) {
        assert RemoveSpace(a + b) == [a[0]] + (RemoveSpace(a[1..]) + RemoveSpace(b));
      }
    }
  }

  lemma {:induction false} RemoveSpaceAllSpace(s: seq<Byte>)
    requires AllSpace(s)
    ensures RemoveSpace(s) == []
  {
    if |s| > 0 {
      RemoveSpaceAllSpace(s[1..]);
    }
  }

  /** Removing whitespace from `s` gives the same as removing it from a
      middle part `r` of `s` that is surrounded by whitespace only. */
  lemma RemoveSpaceSurrounded(s: seq<Byte>, r: seq<Byte>, i: int)
    requires 0 <= i <= |s| - |r| && r == s[i..i + |r|]
    requires AllSpace(s[..i]) && AllSpace(s[i + |r|..])
    ensures RemoveSpace(r) == RemoveSpace(s)
  {
    var lead, trail := s[..i], s[i + |r|..];
    assert s == lead + r + trail;
    RemoveSpaceAppend(lead + r, trail);
    RemoveSpaceAppend(lead, r);
    RemoveSpaceAllSpace(lead);
    RemoveSpaceAllSpace(trail);
  }

  /** Trimming removes whitespace only. */
  lemma RemoveSpaceTrim(s: seq<Byte>)
    ensures RemoveSpace(TrimSpace(s)) == RemoveSpace(s)
  {
    var i := TrimSpaceParts(s);
    RemoveSpaceSurrounded(s, TrimSpace(s), i);
  }
}
