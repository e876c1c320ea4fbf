/** The interactive front end: the state of the terminal UI and how one
    message (a key press, a window resize) changes it. The UI keeps the
    text typed or pasted so far, the chunks of the last split, the chunk
    size, which of its two views is shown, and the window size. */
module Tui {
  import opened GoStrings
  import opened Chunker

  /** The UI state. `currentView` is 0 for the input view and 1 for the
      view that lists the chunks. */
  datatype Model = Model(
    inputText: seq<Byte>,
    chunks: seq<seq<Byte>>,
    chunkSize: int,
    currentView: int,
    width: int,
    height: int)

  /** The key types the input handler tells apart; every other type is
      `KeyOther`. */
  datatype KeyType = KeyCtrlC | KeyCtrlD | KeyEsc | KeyOther

  /** A message delivered to the UI. A key carries its type and its name as
      the terminal library spells it: "enter", "up", "ctrl+c", or the typed
      or pasted text itself. */
  datatype Msg =
    | WindowSizeMsg(w: int, h: int)
    | KeyMsg(keyType: KeyType, key: seq<Byte>)
    | OtherMsg

  /** What the UI asks its runtime to do next. */
  datatype Cmd = NoCmd | Quit

  /** The largest chunk size from which "up" still raises it, the smallest
      from which "down" still lowers it, and the step. */
  const UpLimit := 8000
  const DownLimit := 500
  const Step := 500

  /** A byte that `isPrintableText` lets through: newline, tab, carriage
      return, printable ASCII, or a byte of a non-ASCII character. */
  predicate PrintableByte(b: Byte)
  {
    b == '\n' || b == '\t' || b == '\r' || (32 <= b as int <= 126) || b as int >= 128
  }

  /** `isPrintableText`: a non-empty text of printable bytes only. */
  predicate Printable(s: seq<Byte>)
  {
    |s| > 0 && forall i :: 0 <= i < |s| ==> PrintableByte(s[i])
  }

  /** An ASCII control byte other than tab, newline and carriage return, or
      DEL. */
  predicate IsControl(b: Byte)
  {
    (b as int < 32 && b != '\t' && b != '\n' && b != '\r') || b as int == 127
  }

  /** The loop of `isPrintableText`, which gives up at the first byte it
      does not accept. */
  method IsPrintableText(s: seq<Byte>) returns (ok: bool)
    ensures ok == Printable(s)
  {
    if |s| == 0 {
      return false;
    }
    var i := 0;
    while i < |s|
      invariant 0 <= i <= |s|
      invariant forall j :: 0 <= j < i ==> PrintableByte(s[j])
    {
      var r := s[i];
      if r == '\n' || r == '\t' || r == '\r' || (32 <= r as int <= 126) || r as int >= 128 {
        i := i + 1;
      } else {
        return false;
      }
    }
    return true;
  }

  /** A text is rejected exactly when it is empty or holds a control byte. */
  lemma PrintableRejects(s: seq<Byte>)
    ensures !Printable(s) <==> |s| == 0 || exists i :: 0 <= i < |s| && IsControl(s[i])
  {
    if !Printable(s) && |s| > 0 {
      var i :| 0 <= i < |s| && !PrintableByte(s[i]);
      assert IsControl(s[i]);
    }
  }

  /** The chunk count that the input view announces for `n` bytes of
      input. */
  function EstimatedChunks(n: nat, chunkSize: int): (r: int)
    requires chunkSize >= 1
    ensures r >= 0
    ensures n == 0 <==> r == 0
  {
    (n + chunkSize - 1) / chunkSize
  }

  /** The estimate is the length divided by the chunk size, rounded up: the
      least count of `chunkSize`-byte pieces that hold `n` bytes. */
  lemma EstimateIsCeiling(n: nat, chunkSize: int)
    requires chunkSize >= 1
    ensures var r := EstimatedChunks(n, chunkSize);
      (r - 1) * chunkSize < n <= r * chunkSize || (n == 0 && r == 0)
  {
    var q := EstimatedChunks(n, chunkSize);
    assert q * chunkSize <= n + chunkSize - 1 < (q + 1) * chunkSize;
  }

  lemma {:induction false} MulMonotone(p: int, q: int, c: int)
    requires p <= q && c >= 1
    ensures p * c <= q * c
    decreases q - p
  {
    if p < q {
      MulMonotone(p, q - 1, c);
      assert (q - 1) * c + c == q * c;
    }
  }

  /** Division has one quotient: `q * c + r` with `0 <= r < c` divides by
      `c` to `q`. */
  lemma DivUnique(x: int, c: int, q: int, r: int)
    requires c >= 1 && 0 <= r < c && x == q * c + r
    ensures x / c == q
  {
    var q', r' := x / c, x % c;
    assert x == q' * c + r';
    assert (q + 1) * c == q * c + c;
    assert (q' + 1) * c == q' * c + c;
    if q < q' {
      MulMonotone(q + 1, q', c);
    } else if q' < q {
      MulMonotone(q' + 1, q, c);
    }
  }

  /** One more chunk for every further `chunkSize` bytes. */
  lemma EstimateStep(n: nat, chunkSize: int)
    requires chunkSize >= 1
    ensures EstimatedChunks(n + chunkSize, chunkSize) == EstimatedChunks(n, chunkSize) + 1
  {
    var x := n + chunkSize - 1;
    var q, r := x / chunkSize, x % chunkSize;
    assert x == q * chunkSize + r;
    assert x + chunkSize == (q + 1) * chunkSize + r;
    DivUnique(x + chunkSize, chunkSize, q + 1, r);
  }

  /** Up to `chunkSize` bytes make one chunk. */
  lemma EstimateOne(n: nat, chunkSize: int)
    requires 0 < n <= chunkSize
    ensures EstimatedChunks(n, chunkSize) == 1
  {
    DivUnique(n + chunkSize - 1, chunkSize, 1, n - 1);
  }

  /** Pieces of exactly `chunkSize` bytes but for a last non-empty piece
      of at most `chunkSize` bytes: the estimate for their joined length is
      their number. */
  lemma {:induction false} EstimateCountsFullPieces(chunks: seq<seq<Byte>>, chunkSize: int)
    requires chunkSize >= 1 && |chunks| > 0
    requires forall k :: 0 <= k < |chunks| - 1 ==> |chunks[k]| == chunkSize
    requires 0 < |chunks[|chunks| - 1]| <= chunkSize
    ensures EstimatedChunks(|Concat(chunks)|, chunkSize) == |chunks|
    decreases |chunks|
  {
    if |chunks| == 1 {
      ConcatOne(chunks[0]);
      assert chunks == [chunks[0]];
      EstimateOne(|chunks[0]|, chunkSize);
    } else {
      var rest := chunks[1..];
      assert rest[|rest| - 1] == chunks[|chunks| - 1];
      assert forall k :: 0 <= k < |rest| - 1 ==> rest[k] == chunks[k + 1];
      EstimateCountsFullPieces(rest, chunkSize);
      assert Concat(chunks) == chunks[0] + Concat(rest);
      EstimateStep(|Concat(rest)|, chunkSize);
    }
  }

  /** For a text without whitespace and sentence ends the estimate is
      exact: the loop only ever cuts hard. */
  lemma SplitCountIsEstimate(text: seq<Byte>, chunkSize: int)
    requires chunkSize >= 1 && |text| > 0 && NoBreakBytes(text)
    ensures |Split(text, chunkSize)| == EstimatedChunks(|text|, chunkSize)
  {
    SplitHardCutsOnly(text, chunkSize);
    EstimateCountsFullPieces(Split(text, chunkSize), chunkSize);
  }

  /** What stays true of the state as messages arrive: a positive chunk
      size, one of the two views, and the chunk view never shown without
      chunks. */
  predicate Inv(m: Model)
  {
    m.chunkSize >= 1 && (m.currentView == 0 || m.currentView == 1)
    && (m.currentView == 1 ==> |m.chunks| > 0)
  }

  /** The state the UI starts in: the given chunk size (the caller has
      made it positive) and the piped-in text, already trimmed; with some
      text it is split at once and the chunk view is shown. */
  function Start(initialText: seq<Byte>, chunkSize: int): (m: Model)
    requires chunkSize >= 1
    ensures Inv(m)
    ensures m.inputText == initialText && m.chunkSize == chunkSize
    ensures m.currentView == 1 <==> |initialText| > 0
    ensures m.chunks == if |initialText| > 0 then Split(initialText, chunkSize) else []
  {
    var m := Model(initialText, [], chunkSize, 0, 0, 0);
    if |initialText| > 0 then m.(chunks := Split(initialText, chunkSize), currentView := 1) else m
  }

  /** The names of the keys that end the program. */
  predicate IsQuitKey(key: seq<Byte>)
  {
    key == "ctrl+c" || key == "q"
  }

  /** The case labels of the switch over a key's name. */
  const KeyNames: set<seq<Byte>> :=
    {"ctrl+c", "q", "tab", "enter", "up", "down", "r", "ctrl+v", "backspace", "delete"}

  /** Which case of the switch a key's name selects; `TextKey` is the
      default case, which treats the name as typed text. */
  datatype KeyAction =
    | QuitKey | TabKey | EnterKey | UpKey | DownKey | ResetKey | PasteKey | DeleteKey | TextKey

  function Action(key: seq<Byte>): (a: KeyAction)
    ensures a == QuitKey <==> IsQuitKey(key)
  {
    if IsQuitKey(key) then QuitKey
    else if key == "tab" then TabKey
    else if key == "enter" then EnterKey
    else if key == "up" then UpKey
    else if key == "down" then DownKey
    else if key == "r" then ResetKey
    else if key == "ctrl+v" then PasteKey
    else if key == "backspace" || key == "delete" then DeleteKey
    else TextKey
  }

  /** Exactly the names that no case of the switch lists fall to its
      default case. */
  lemma ActionDefault(key: seq<Byte>)
    ensures Action(key) == TextKey <==> key !in KeyNames
  {
  }

  /** `model.Update`: the new state and the command for one message. The
      source demands a positive chunk size (at zero the split never ends),
      and every state it reaches keeps one. */
  function Update(m: Model, msg: Msg): (r: (Model, Cmd))
    requires m.chunkSize >= 1
    ensures r.0.chunkSize >= 1
    ensures Inv(m) ==> Inv(r.0)
    ensures r.1 == Quit <==> msg.KeyMsg? && IsQuitKey(msg.key)
    ensures r.1 == Quit ==> r.0 == m
    ensures msg.WindowSizeMsg? ==> r.0 == m.(width := msg.w, height := msg.h)
    ensures !msg.WindowSizeMsg? ==> r.0.width == m.width && r.0.height == m.height
    ensures msg.OtherMsg? ==> r.0 == m
  {
    match msg
    case WindowSizeMsg(w, h) => (m.(width := w, height := h), NoCmd)
    case KeyMsg(keyType, key) => (UpdateKey(m, keyType, key), if IsQuitKey(key) then Quit else NoCmd)
    case OtherMsg => (m, NoCmd)
  }

  /** The new state for a key. */
  function UpdateKey(m: Model, keyType: KeyType, key: seq<Byte>): (r: Model)
    requires m.chunkSize >= 1
    ensures r.width == m.width && r.height == m.height
    ensures r.chunkSize >= 1
    ensures Inv(m) ==> Inv(r)
  {
    match Action(key)
    case QuitKey => m
    case TabKey => Tab(m)
    case EnterKey => Enter(m)
    case UpKey => Up(m)
    case DownKey => Down(m)
    case ResetKey => m.(inputText := [], chunks := [], currentView := 0)
    case PasteKey => m
    case DeleteKey => DropLast(m)
    case TextKey => TypeText(m, keyType, key)
  }

  /** Only "up" and "down" change the chunk size, by one step; the chunks
      change only to none or to the split of the unchanged input; the input
      changes only by a reset, by losing its last byte, or by gaining the
      key's printable text in the input view. */
  lemma UpdateChangesOnly(m: Model, msg: Msg)
    requires m.chunkSize >= 1
    ensures var r := Update(m, msg).0;
      && (r.chunkSize != m.chunkSize ==>
        || (msg.KeyMsg? && Action(msg.key) == UpKey && r.chunkSize == m.chunkSize + Step)
        || (msg.KeyMsg? && Action(msg.key) == DownKey && r.chunkSize == m.chunkSize - Step))
      && (r.chunks != m.chunks ==>
        || r.chunks == []
        || (r.inputText == m.inputText && r.chunks == Split(m.inputText, r.chunkSize)))
      && (r.inputText != m.inputText ==>
        || (msg.KeyMsg? && Action(msg.key) == ResetKey && r.inputText == [])
        || (m.currentView == 0 && |m.inputText| > 0 && r.inputText == m.inputText[..|m.inputText| - 1])
        || (m.currentView == 0 && msg.KeyMsg? && Printable(msg.key) && r.inputText == m.inputText + msg.key))
  {
    if msg.KeyMsg? {
      var r := UpdateKey(m, msg.keyType, msg.key);
      assert Update(m, msg).0 == r;
      match Action(msg.key)
      case QuitKey =>
      case TabKey =>
      case EnterKey =>
      case UpKey =>
      case DownKey =>
      case ResetKey =>
      case PasteKey =>
      case DeleteKey =>
      case TextKey =>
    }
  }

  /** "up": one step more, below 8000 only. */
  function Up(m: Model): (r: Model)
    requires m.chunkSize >= 1
    ensures r.chunkSize == if m.chunkSize < UpLimit then m.chunkSize + Step else m.chunkSize
    ensures r.chunks == if m.chunkSize < UpLimit && |m.inputText| > 0 then Split(m.inputText, r.chunkSize) else m.chunks
    ensures r == m.(chunkSize := r.chunkSize, chunks := r.chunks)
  {
    if m.chunkSize < UpLimit then WithChunkSize(m, m.chunkSize + Step) else m
  }

  /** "down": one step less, above 500 only, so the size stays positive. */
  function Down(m: Model): (r: Model)
    requires m.chunkSize >= 1
    ensures r.chunkSize >= 1
    ensures r.chunkSize == if m.chunkSize > DownLimit then m.chunkSize - Step else m.chunkSize
    ensures r.chunks == if m.chunkSize > DownLimit && |m.inputText| > 0 then Split(m.inputText, r.chunkSize) else m.chunks
    ensures r == m.(chunkSize := r.chunkSize, chunks := r.chunks)
  {
    if m.chunkSize > DownLimit then WithChunkSize(m, m.chunkSize - Step) else m
  }

  /** "backspace" and "delete": drop the last byte of the input in the
      input view. */
  function DropLast(m: Model): (r: Model)
    ensures r == m.(inputText := r.inputText)
    ensures r.inputText == if m.currentView == 0 && |m.inputText| > 0
      then m.inputText[..|m.inputText| - 1] else m.inputText
  {
    if m.currentView == 0 && |m.inputText| > 0 then m.(inputText := m.inputText[..|m.inputText| - 1])
    else m
  }

  /** Any other key: its text is appended in the input view, unless its
      type is one of the three excluded ones or `isPrintableText` rejects
      it. */
  function TypeText(m: Model, keyType: KeyType, key: seq<Byte>): (r: Model)
    ensures r == m.(inputText := r.inputText)
    ensures r.inputText == if m.currentView == 0 && keyType == KeyOther && Printable(key)
      then m.inputText + key else m.inputText
  {
    if m.currentView == 0 && keyType == KeyOther && |key| > 0 && Printable(key) then
      m.(inputText := m.inputText + key)
    else m
  }

  /** "tab": to the chunk view only when there are chunks, and back to the
      input view always; nothing but the view changes. */
  function Tab(m: Model): (r: Model)
    ensures r == m.(currentView := r.currentView)
    ensures Inv(m) ==> Inv(r) && (r.currentView == 1 <==> m.currentView == 0 && |m.chunks| > 0)
  {
    if m.currentView == 0 && |m.chunks| > 0 then m.(currentView := 1)
    else if m.currentView == 1 then m.(currentView := 0)
    else m
  }

  /** "enter": in the input view, split the input and show the chunk view,
      which always follows because a split is never empty. */
  function Enter(m: Model): (r: Model)
    requires m.chunkSize >= 1
    ensures m.currentView == 0 ==> r == m.(chunks := Split(m.inputText, m.chunkSize), currentView := 1)
    ensures m.currentView != 0 ==> r == m
  {
    if m.currentView == 0 then
      var chunks := Split(m.inputText, m.chunkSize);
      if |chunks| > 0 then m.(chunks := chunks, currentView := 1) else m.(chunks := chunks)
    else m
  }

  /** The new chunk size, with the chunks recomputed when there is input. */
  function WithChunkSize(m: Model, size: int): (r: Model)
    requires size >= 1
    ensures r.chunkSize == size
    ensures r.chunks == if |m.inputText| > 0 then Split(m.inputText, size) else m.chunks
    ensures r.inputText == m.inputText && r.currentView == m.currentView
    ensures r.width == m.width && r.height == m.height
  {
    var m' := m.(chunkSize := size);
    if |m.inputText| > 0 then m'.(chunks := Split(m.inputText, size)) else m'
  }

  /** "tab" shows the chunks only when there are some, and always goes back
      from the chunk view to the input view. */
  lemma TabSwitchesView(m: Model, keyType: KeyType)
    requires Inv(m)
    ensures var r := Update(m, KeyMsg(keyType, "tab")).0;
      && (r.currentView == 1 <==> m.currentView == 0 && |m.chunks| > 0)
      && r == m.(currentView := r.currentView)
  {
  }

  /** "enter" in the input view splits the input and always moves on to the
      chunk view, since a split is never empty; in the chunk view it does
      nothing. */
  lemma EnterSplits(m: Model, keyType: KeyType)
    requires m.chunkSize >= 1
    ensures var r := Update(m, KeyMsg(keyType, "enter")).0;
      if m.currentView == 0 then
        r == m.(chunks := Split(m.inputText, m.chunkSize), currentView := 1)
      else
        r == m
  {
  }

  /** "up" raises the chunk size by 500 while it is below 8000, and
      re-splits only when there is input. */
  lemma UpRaisesSize(m: Model, keyType: KeyType)
    requires m.chunkSize >= 1
    ensures var r := Update(m, KeyMsg(keyType, "up")).0;
      && r.chunkSize == (if m.chunkSize < UpLimit then m.chunkSize + Step else m.chunkSize)
      && r.chunks == (if m.chunkSize < UpLimit && |m.inputText| > 0 then Split(m.inputText, r.chunkSize) else m.chunks)
      && r.inputText == m.inputText && r.currentView == m.currentView
  {
    assert Action("up") == UpKey;
  }

  /** "down" lowers the chunk size by 500 while it is above 500, and
      re-splits only when there is input. */
  lemma DownLowersSize(m: Model, keyType: KeyType)
    requires m.chunkSize >= 1
    ensures var r := Update(m, KeyMsg(keyType, "down")).0;
      && r.chunkSize == (if m.chunkSize > DownLimit then m.chunkSize - Step else m.chunkSize)
      && r.chunks == (if m.chunkSize > DownLimit && |m.inputText| > 0 then Split(m.inputText, r.chunkSize) else m.chunks)
      && r.inputText == m.inputText && r.currentView == m.currentView
  {
    assert Action("down") == DownKey;
  }

  /** A chunk size in `1..8499` stays there however often "up" and "down"
      are pressed. */
  lemma SizeStaysInRange(m: Model, msg: Msg)
    requires 1 <= m.chunkSize < UpLimit + Step
    ensures 1 <= Update(m, msg).0.chunkSize < UpLimit + Step
  {
  }

  /** "ctrl+v" is left to the terminal, which delivers pasted text as
      typed keys; the key itself changes nothing. */
  lemma PasteChangesNothing(m: Model, keyType: KeyType)
    requires m.chunkSize >= 1
    ensures Update(m, KeyMsg(keyType, "ctrl+v")) == (m, NoCmd)
  {
    assert Action("ctrl+v") == PasteKey;
  }

  /** "ctrl+c" and "q" return the state unchanged, with the quit command. */
  lemma QuitKeepsState(m: Model, keyType: KeyType, key: seq<Byte>)
    requires m.chunkSize >= 1 && IsQuitKey(key)
    ensures Update(m, KeyMsg(keyType, key)) == (m, Quit)
  {
  }

  /** "r" empties the input and the chunks and returns to the input view;
      chunk size and window size stay. */
  lemma ResetClears(m: Model, keyType: KeyType)
    requires m.chunkSize >= 1
    ensures var r := Update(m, KeyMsg(keyType, "r")).0;
      && r.inputText == [] && r.chunks == [] && r.currentView == 0
      && r.chunkSize == m.chunkSize && r.width == m.width && r.height == m.height
  {
  }

  /** "backspace" and "delete" drop the last byte of the input in the input
      view, and change nothing otherwise. */
  lemma DeleteDropsLastByte(m: Model, keyType: KeyType, key: seq<Byte>)
    requires m.chunkSize >= 1 && (key == "backspace" || key == "delete")
    ensures var r := Update(m, KeyMsg(keyType, key)).0;
      r == if m.currentView == 0 && |m.inputText| > 0
        then m.(inputText := m.inputText[..|m.inputText| - 1]) else m
  {
  }

  /** A key whose name is not a command adds its text to the input exactly
      when the input view is shown, the key type is not one of the three
      excluded ones, and the text is printable. */
  lemma TypingAppends(m: Model, keyType: KeyType, key: seq<Byte>)
    requires m.chunkSize >= 1
    requires key !in KeyNames
    ensures var r := Update(m, KeyMsg(keyType, key)).0;
      r == if m.currentView == 0 && keyType == KeyOther && Printable(key)
        then m.(inputText := m.inputText + key) else m
  {
    ActionDefault(key);
  }

  /** Input that holds printable bytes only keeps doing so: typing appends
      printable text only, and deleting and resetting keep a prefix. */
  lemma InputStaysPrintable(m: Model, msg: Msg)
    requires m.chunkSize >= 1
    requires forall i :: 0 <= i < |m.inputText| ==> PrintableByte(m.inputText[i])
    ensures var r := Update(m, msg).0;
      forall i :: 0 <= i < |r.inputText| ==> PrintableByte(r.inputText[i])
  {
    var r := Update(m, msg).0;
    if msg.KeyMsg? && m.currentView == 0 && Printable(msg.key) && r.inputText == m.inputText + msg.key {
      forall i | 0 <= i < |r.inputText|
        ensures PrintableByte(r.inputText[i])
      {
        if i >= |m.inputText| {
          assert r.inputText[i] == msg.key[i - |m.inputText|];
        }
      }
    }
  }

  /** The chunk view can show chunks that are not those of the current
      input: after a split, "tab" back to the input, more typing, and
      "tab" again show the old chunks. */
  lemma StaleChunksAfterTab()
    ensures var m0 := Model("a", ["a"], 10, 1, 80, 24);
      var m1 := Update(m0, KeyMsg(KeyOther, "tab")).0;
      var m2 := Update(m1, KeyMsg(KeyOther, "b")).0;
      var m3 := Update(m2, KeyMsg(KeyOther, "tab")).0;
      && Inv(m0) && m0.chunks == Split(m0.inputText, m0.chunkSize)
      && m3.currentView == 1 && m3.inputText == "ab"
      && m3.chunks != Split(m3.inputText, m3.chunkSize)
  {
    var s: seq<Byte> := "ab";
    assert Split(s, 10) == [s];
    assert ["a"] != [s] by { assert s[1] == 'b'; }
  }
}
