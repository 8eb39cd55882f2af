/**
  The main menu's logic: a debounced cursor over four options, the Enter
  key returning the selected option's action, and the word wrapping of
  the mode descriptions. Drawing is not part of this model.
 */
module Menu {

  /** The options' actions, top to bottom. */
  const Actions: seq<string> := ["start_classic", "start_timed", "start_challenge", "quit"]

  /** Milliseconds that must pass after an accepted cursor move. */
  const KeyDelay := 200

  datatype MenuState = MenuState(selected: int, lastKeyTime: int)

  datatype MenuKeys = MenuKeys(up: bool, down: bool, enter: bool)

  /** The menu as created: first option selected, no key accepted yet. */
  function NewMenu(): (m: MenuState)
    ensures 0 <= m.selected < |Actions| && Actions[m.selected] == "start_classic"
    ensures m.selected == 0 && m.lastKeyTime == 0
  {
    MenuState(0, 0)
  }

  /** `_handle_input`: within `KeyDelay` ms of the last accepted move nothing
      happens; otherwise Up moves the cursor up unless it is at the top, else
      Down moves it down unless it is at the bottom. The timestamp is
      recorded exactly when the cursor moves. */
  function HandleInput(m: MenuState, keys: MenuKeys, now: int): (r: MenuState)
    ensures now - m.lastKeyTime < KeyDelay ==> r == m
    ensures 0 <= m.selected < |Actions| ==> 0 <= r.selected < |Actions|
    ensures r.selected == m.selected || r.selected == m.selected - 1 || r.selected == m.selected + 1
    ensures r.selected != m.selected <==> r.lastKeyTime != m.lastKeyTime
    ensures r.selected != m.selected ==> r.lastKeyTime == now
    ensures now - m.lastKeyTime >= KeyDelay && keys.up && m.selected > 0 ==> r.selected == m.selected - 1
    ensures (now - m.lastKeyTime >= KeyDelay && keys.down && !(keys.up && m.selected > 0) && m.selected < |Actions| - 1)
              ==> r.selected == m.selected + 1
    ensures r.selected == m.selected - 1 ==> keys.up
    ensures r.selected == m.selected + 1 ==> keys.down && !(keys.up && m.selected > 0)
  {
    if now - m.lastKeyTime < KeyDelay then m
    else if keys.up && m.selected > 0 then MenuState(m.selected - 1, now)
    else if keys.down && m.selected < |Actions| - 1 then MenuState(m.selected + 1, now)
    else m
  }

  /** `update`: handle the cursor, then report the selected action if Enter is held. */
  function MenuUpdate(m: MenuState, keys: MenuKeys, now: int): (r: (MenuState, string))
    requires 0 <= m.selected < |Actions|
    ensures r.0 == HandleInput(m, keys, now) && 0 <= r.0.selected < |Actions|
    ensures keys.enter ==> r.1 == Actions[r.0.selected]
    ensures !keys.enter ==> r.1 == ""
  {
    var m' := HandleInput(m, keys, now);
    (m', if keys.enter then Actions[m'.selected] else "")
  }

  /** Holding Up and Down together moves up, unless the cursor is at the top. */
  lemma UpTakesPrecedence(m: MenuState, now: int)
    requires 0 < m.selected < |Actions| && now - m.lastKeyTime >= KeyDelay
    ensures HandleInput(m, MenuKeys(true, true, false), now).selected == m.selected - 1
  {
  }

  // ---------------------------------------------------------------------
  // Splitting and joining

  /** Python's `text.split(' ')`: every space separates, so empty words appear
      between adjacent spaces and at the ends. */
  function Split(s: string): (ws: seq<string>)
    ensures |ws| >= 1
    ensures forall i :: 0 <= i < |ws| ==> ' ' !in ws[i]
  {
    if |s| == 0 then [""]
    else if s[0] == ' ' then [""] + Split(s[1..])
    else
      var rest := Split(s[1..]);
      [[s[0]] + rest[0]] + rest[1..]
  }

  /** Python's `' '.join(words)`. */
  function Join(ws: seq<string>): string {
    if |ws| == 0 then ""
    else if |ws| == 1 then ws[0]
    else ws[0] + " " + Join(ws[1..])
  }

  /** Joining the split words gives back the text. */
  lemma {:induction false} JoinSplit(s: string)
    ensures Join(Split(s)) == s
  {
    if |s| == 0 {
    } else if s[0] == ' ' {
      JoinSplit(s[1..]);
      assert ([""] + Split(s[1..]))[1..] == Split(s[1..]);
    } else {
      var rest := Split(s[1..]);
      JoinSplit(s[1..]);
      var ws := [[s[0]] + rest[0]] + rest[1..];
      if |rest| == 1 {
        assert Join(ws) == [s[0]] + rest[0];
      } else {
        assert ws[1..] == rest[1..];
        assert Join(rest) == rest[0] + " " + Join(rest[1..]);
      }
    }
  }

  /** Splitting the joined words gives back the words, when no word holds a space. */
  lemma {:induction false} SplitJoin(ws: seq<string>)
    requires |ws| >= 1
    requires forall i :: 0 <= i < |ws| ==> ' ' !in ws[i]
    ensures Split(Join(ws)) == ws
    decreases |ws|, |ws[0]|
  {
    if |ws[0]| > 0 {
      var w := ws[0];
      var shorter := [w[1..]] + ws[1..];
      SplitJoin(shorter);
      var joined := Join(ws);
      assert joined == [w[0]] + Join(shorter) by {
        assert w == [w[0]] + w[1..];
        if |ws| > 1 {
          assert shorter[1..] == ws[1..];
        }
      }
      assert w[0] != ' ' by {
        assert w[0] in w;
      }
      assert joined[0] == w[0] && joined[1..] == Join(shorter);
      assert Split(joined) == [[w[0]] + shorter[0]] + shorter[1..];
      assert [w[0]] + w[1..] == w;
      assert [w] + ws[1..] == ws;
    } else if |ws| > 1 {
      SplitJoin(ws[1..]);
      assert Join(ws) == " " + Join(ws[1..]);
      assert (" " + Join(ws[1..]))[1..] == Join(ws[1..]);
    }
  }

  // ---------------------------------------------------------------------
  // Word wrapping

  /** The total length of the words of a group, without separators. */
  function SumLen(g: seq<string>): nat {
    if |g| == 0 then 0 else |g[0]| + SumLen(g[1..])
  }

  lemma {:induction false} SumLenAppend(g: seq<string>, w: string)
    ensures SumLen(g + [w]) == SumLen(g) + |w|
  {
    if |g| > 0 {
      assert (g + [w])[1..] == g[1..] + [w];
      SumLenAppend(g[1..], w);
    }
  }

  /** A joined group is its words plus one space between each pair. */
  lemma {:induction false} JoinLength(g: seq<string>)
    requires |g| >= 1
    ensures |Join(g)| == SumLen(g) + |g| - 1
  {
    if |g| > 1 {
      JoinLength(g[1..]);
    }
  }

  /** The words of the groups, in order. */
  function Flatten(gs: seq<seq<string>>): seq<string> {
    if |gs| == 0 then [] else gs[0] + Flatten(gs[1..])
  }

  lemma {:induction false} FlattenAppend(gs: seq<seq<string>>, g: seq<string>)
    ensures Flatten(gs + [g]) == Flatten(gs) + g
  {
    if |gs| > 0 {
      assert (gs + [g])[1..] == gs[1..] + [g];
      FlattenAppend(gs[1..], g);
    }
  }

  /** A group fits when it is empty, a single word, or joined no longer than `max`. */
  predicate Fits(g: seq<string>, max: int) {
    |g| <= 1 || SumLen(g) + |g| - 1 <= max
  }

  /** Adding word `w` to group `g` would make the line longer than `max`:
      the test `_wrap_text` makes before each word. */
  predicate Overflows(g: seq<string>, w: string, max: int) {
    SumLen(g) + |w| + |g| > max
  }

  /** The shape of a wrapping: later groups are never empty, every group
      fits, the first group is empty exactly when the first word is longer
      than `max`, and a group ends only because the next word would not fit
      on it (the words are packed greedily). */
  predicate WellWrapped(words: seq<string>, gs: seq<seq<string>>, max: int)
    requires |words| >= 1
  {
    && (forall k :: 0 < k < |gs| ==> |gs[k]| > 0)
    && (forall k :: 0 <= k < |gs| ==> Fits(gs[k], max))
    && (|gs| > 0 ==> (|gs[0]| == 0 <==> |words[0]| > max))
    && (forall k :: 0 < k < |gs| ==> |gs[k]| > 0 && Overflows(gs[k - 1], gs[k][0], max))
  }

  /** Closing group `g` after `lines` keeps the wrapping well shaped when `g`
      fits and, unless it is the first group, starts with a word that did not
      fit on the group before it. */
  lemma WellWrappedAppend(words: seq<string>, lines: seq<seq<string>>, g: seq<string>, max: int)
    requires |words| >= 1
    requires WellWrapped(words, lines, max) && Fits(g, max)
    requires |lines| > 0 ==> |g| > 0 && Overflows(lines[|lines| - 1], g[0], max)
    requires |lines| == 0 ==> (|g| == 0 <==> |words[0]| > max)
    ensures WellWrapped(words, lines + [g], max)
  {
    var gs := lines + [g];
    forall k | 0 < k < |gs|
      ensures |gs[k]| > 0 && Overflows(gs[k - 1], gs[k][0], max)
    {
      if k < |lines| {
        assert gs[k] == lines[k] && gs[k - 1] == lines[k - 1];
      } else {
        assert gs[k] == g && gs[k - 1] == lines[|lines| - 1];
      }
    }
  }

  /** The loop of `_wrap_text` from word `i` on, with the lines emitted so far,
      the current line's words and their total length. */
  function WrapLoop(words: seq<string>, i: nat, max: int, lines: seq<seq<string>>,
                    cur: seq<string>, curLen: int): (gs: seq<seq<string>>)
    requires |words| >= 1 && i <= |words|
    requires Flatten(lines) + cur == words[..i]
    requires curLen == SumLen(cur)
    requires i > 0 ==> |cur| > 0
    requires i == 0 ==> lines == [] && cur == []
    requires |lines| == 0 && i > 0 ==> |words[0]| <= max
    requires WellWrapped(words, lines, max) && Fits(cur, max)
    requires |lines| > 0 ==> |cur| > 0 && Overflows(lines[|lines| - 1], cur[0], max)
    decreases |words| - i
    ensures |gs| >= 1 || i == 0
    ensures Flatten(gs) == words
    ensures WellWrapped(words, gs, max)
    ensures i > 0 ==> |gs| >= 1
  {
    if i >= |words| then
      assert words[..i] == words;
      if |cur| > 0 then
        FlattenAppend(lines, cur);
        WellWrappedAppend(words, lines, cur, max);
        lines + [cur]
      else lines
    else
      var w := words[i];
      assert words[..i + 1] == words[..i] + [w];
      if Overflows(cur, w, max) then
        FlattenAppend(lines, cur);
        assert cur == [] ==> i == 0;
        WellWrappedAppend(words, lines, cur, max);
        WrapLoop(words, i + 1, max, lines + [cur], [w], |w|)
      else
        SumLenAppend(cur, w);
        WrapLoop(words, i + 1, max, lines, cur + [w], curLen + |w|)
  }

  /** The word groups `_wrap_text` joins into lines: together they are exactly
      the words, in order; there is at least one; an empty group can only come
      first, and does exactly when the first word is longer than `max`; every
      group fits; and every group but the last was closed because the next
      word would not fit on it. */
  function WrapGroups(words: seq<string>, max: int): (gs: seq<seq<string>>)
    requires |words| >= 1
    ensures |gs| >= 1
    ensures Flatten(gs) == words
    ensures WellWrapped(words, gs, max)
  {
    WrapLoop(words, 0, max, [], [], 0)
  }

  /** `_wrap_text`: the joined word groups of the space-separated words. Every
      line is empty, a single word, or at most `max` characters long, and there
      is always at least one line. */
  function WrapText(text: string, max: int): (lines: seq<string>)
    ensures |lines| == |WrapGroups(Split(text), max)| >= 1
    ensures forall k :: 0 <= k < |lines| ==>
              lines[k] == Join(WrapGroups(Split(text), max)[k]) &&
              (|WrapGroups(Split(text), max)[k]| <= 1 || |lines[k]| <= max)
  {
    var gs := WrapGroups(Split(text), max);
    forall k | 0 <= k < |gs| && |gs[k]| > 1 ensures |Join(gs[k])| <= max {
      JoinLength(gs[k]);
    }
    seq(|gs|, k requires 0 <= k < |gs| => Join(gs[k]))
  }

  /** Rejoining the lines with spaces gives back the text, so wrapping loses
      and reorders nothing. */
  lemma {:induction false} WrapTextKeepsWords(text: string, max: int)
    ensures Flatten(WrapGroups(Split(text), max)) == Split(text)
    ensures Join(Flatten(WrapGroups(Split(text), max))) == text
  {
    JoinSplit(text);
  }
}
