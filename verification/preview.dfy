/** The preview text of a file: `" ".join(text.split())` over the first
    characters of its decoded content. */
module Preview {
  import opened Text

  /** A word of `str.split()`: a non-empty run without whitespace. */
  predicate IsWord(w: string) {
    |w| > 0 && forall i | 0 <= i < |w| :: !IsSpace(w[i])
  }

  /** Length of the run of non-whitespace characters that starts `s`. */
  function WordLen(s: string): (n: nat)
    ensures n <= |s|
    ensures forall i | 0 <= i < n :: !IsSpace(s[i])
    ensures n < |s| ==> IsSpace(s[n])
  {
    if |s| == 0 || IsSpace(s[0]) then 0 else 1 + WordLen(s[1..])
  }

  /** `s.split()` with no separator: the maximal whitespace-free runs of
      `s`, in order. */
  function Split(s: string): (ws: seq<string>)
    ensures forall i | 0 <= i < |ws| :: IsWord(ws[i])
    decreases |s|
  {
    if |s| == 0 then []
    else if IsSpace(s[0]) then Split(s[1..])
    else
      var n := WordLen(s);
      [s[..n]] + Split(s[n..])
  }

  /** Every character of `g` is whitespace. */
  predicate AllSpace(g: string) {
    forall i | 0 <= i < |g| :: IsSpace(g[i])
  }

  /** `gaps[0] + ws[0] + gaps[1] + ... + ws[n - 1] + gaps[n]`. */
  function Interleave(gaps: seq<string>, ws: seq<string>): string
    requires |gaps| == |ws| + 1
    decreases |ws|
  {
    if |ws| == 0 then gaps[0] else gaps[0] + ws[0] + Interleave(gaps[1..], ws[1..])
  }

  /** `s` is the words `ws` separated by whitespace: `s` interleaves `ws`
      with whitespace gaps, and the gaps between two words are not
      empty. This is the declarative meaning of `s.split() == ws`. */
  ghost predicate IsLayout(s: string, gaps: seq<string>, ws: seq<string>) {
    && |gaps| == |ws| + 1
    && (forall i | 0 <= i < |gaps| :: AllSpace(gaps[i]))
    && (forall i | 0 < i < |ws| :: |gaps[i]| > 0)
    && (forall i | 0 <= i < |ws| :: IsWord(ws[i]))
    && s == Interleave(gaps, ws)
  }

  /** Peeling the first gap and word off a layout leaves a layout of the
      rest. */
  lemma LayoutHead(s: string, gaps: seq<string>, ws: seq<string>)
    requires IsLayout(s, gaps, ws)
    ensures |ws| == 0 ==> s == gaps[0]
    ensures |ws| > 0 ==> s == gaps[0] + ws[0] + Interleave(gaps[1..], ws[1..])
                         && IsLayout(Interleave(gaps[1..], ws[1..]), gaps[1..], ws[1..])
    ensures |ws| > 0 ==> |s| > |gaps[0]| && s[|gaps[0]|] == ws[0][0]
    ensures |gaps[0]| > 0 ==> |s| > 0 && s[0] == gaps[0][0]
  {
    if |ws| > 0 {
      var t := Interleave(gaps[1..], ws[1..]);
      assert s == gaps[0] + ws[0] + t;
      assert s[|gaps[0]|] == (ws[0] + t)[0];
    }
  }

  /** The text after a word of a layout is empty or starts with
      whitespace. */
  lemma LayoutRestSpace(t: string, gaps: seq<string>, ws: seq<string>)
    requires IsLayout(t, gaps, ws)
    requires |ws| > 0 ==> |gaps[0]| > 0
    ensures |t| == 0 || IsSpace(t[0])
  {
    LayoutHead(t, gaps, ws);
  }

  /** `s.split()` lays `s` out: its words interleave with whitespace gaps
      to give back `s`. */
  lemma {:induction false} SplitLayout(s: string)
    ensures exists gaps :: IsLayout(s, gaps, Split(s))
    decreases |s|
  {
    var gaps := SplitGaps(s);
  }

  lemma {:induction false} SplitGaps(s: string) returns (gaps: seq<string>)
    ensures IsLayout(s, gaps, Split(s))
    decreases |s|
  {
    if |s| == 0 {
      gaps := [""];
    } else if IsSpace(s[0]) {
      var g := SplitGaps(s[1..]);
      LayoutConsSpace(s[0], s[1..], g, Split(s[1..]));
      assert s == [s[0]] + s[1..];
      gaps := [[s[0]] + g[0]] + g[1..];
    } else {
      var n := WordLen(s);
      var g := SplitGaps(s[n..]);
      LayoutFirstGap(s[n..], g, Split(s[n..]));
      LayoutConsWord(s[..n], s[n..], g, Split(s[n..]));
      assert s == s[..n] + s[n..];
      gaps := [""] + g;
    }
  }

  /** A layout whose text is empty or starts with whitespace has a
      non-empty first gap before any word. */
  lemma LayoutFirstGap(t: string, gaps: seq<string>, ws: seq<string>)
    requires IsLayout(t, gaps, ws)
    requires |t| == 0 || IsSpace(t[0])
    ensures |ws| > 0 ==> |gaps[0]| > 0
  {
    LayoutHead(t, gaps, ws);
  }

  /** Whitespace in front of a layout joins its first gap. */
  lemma LayoutConsSpace(c: char, t: string, gaps: seq<string>, ws: seq<string>)
    requires IsSpace(c) && IsLayout(t, gaps, ws)
    ensures IsLayout([c] + t, [[c] + gaps[0]] + gaps[1..], ws)
  {
    var g := [[c] + gaps[0]] + gaps[1..];
    assert g[1..] == gaps[1..];
    assert Interleave(g, ws) == [c] + Interleave(gaps, ws);
  }

  /** A word in front of a layout whose first gap is not empty (or that has
      no word) becomes its first word, behind an empty gap. */
  lemma LayoutConsWord(w: string, t: string, gaps: seq<string>, ws: seq<string>)
    requires IsWord(w) && IsLayout(t, gaps, ws)
    requires |ws| > 0 ==> |gaps[0]| > 0
    ensures IsLayout(w + t, [""] + gaps, [w] + ws)
  {
    var g := [""] + gaps;
    assert g[1..] == gaps && ([w] + ws)[1..] == ws;
    assert Interleave(g, [w] + ws) == "" + w + Interleave(gaps, ws);
  }

  /** A layout determines its words: whatever words `ws` lay `s` out are
      `s.split()`. */
  lemma {:induction false} LayoutIsSplit(s: string, gaps: seq<string>, ws: seq<string>)
    requires IsLayout(s, gaps, ws)
    ensures ws == Split(s)
    decreases |s|
  {
    LayoutHead(s, gaps, ws);
    if |s| == 0 {
      assert |ws| == 0;
    } else if IsSpace(s[0]) {
      var g := LayoutDropSpace(s, gaps, ws);
      LayoutIsSplit(s[1..], g, ws);
    } else {
      LayoutDropWord(s, gaps, ws);
      LayoutIsSplit(s[|ws[0]|..], gaps[1..], ws[1..]);
      assert ws == [ws[0]] + ws[1..];
    }
  }

  /** Dropping leading whitespace shortens the first gap. */
  lemma LayoutDropSpace(s: string, gaps: seq<string>, ws: seq<string>) returns (g: seq<string>)
    requires IsLayout(s, gaps, ws) && |s| > 0 && IsSpace(s[0])
    ensures IsLayout(s[1..], g, ws)
  {
    LayoutHead(s, gaps, ws);
    assert |gaps[0]| > 0;
    g := [gaps[0][1..]] + gaps[1..];
    assert g[1..] == gaps[1..];
    assert Interleave(gaps, ws) == [gaps[0][0]] + Interleave(g, ws);
  }

  /** A layout of a text that starts with a word has an empty first gap,
      and that word is the first run `str.split()` finds. */
  lemma LayoutDropWord(s: string, gaps: seq<string>, ws: seq<string>)
    requires IsLayout(s, gaps, ws) && |s| > 0 && !IsSpace(s[0])
    ensures |ws| > 0 && WordLen(s) == |ws[0]| && s[..|ws[0]|] == ws[0]
    ensures IsLayout(s[|ws[0]|..], gaps[1..], ws[1..])
  {
    LayoutStartsWithWord(s, gaps, ws);
    LayoutHead(s, gaps, ws);
    var t := Interleave(gaps[1..], ws[1..]);
    assert s == ws[0] + t;
    WordBeforeLayout(ws[0], t, gaps[1..], ws[1..]);
  }

  /** A layout of a text that starts with a non-whitespace character has
      a word, and an empty gap before it. */
  lemma LayoutStartsWithWord(s: string, gaps: seq<string>, ws: seq<string>)
    requires IsLayout(s, gaps, ws) && |s| > 0 && !IsSpace(s[0])
    ensures |ws| > 0 && gaps[0] == []
  {
    LayoutHead(s, gaps, ws);
    assert AllSpace(gaps[0]);
  }

  /** A word followed by a layout whose first gap is not empty (or that
      has no word) is the leading run of the text. */
  lemma WordBeforeLayout(w: string, t: string, gaps: seq<string>, ws: seq<string>)
    requires IsWord(w) && IsLayout(t, gaps, ws)
    requires |ws| > 0 ==> |gaps[0]| > 0
    ensures WordLen(w + t) == |w| && (w + t)[..|w|] == w && (w + t)[|w|..] == t
  {
    LayoutRestSpace(t, gaps, ws);
    WordLenOfWord(w, t);
  }

  /** `" ".join(ws)`. */
  function Join(ws: seq<string>): string
  {
    if |ws| == 0 then ""
    else if |ws| == 1 then ws[0]
    else ws[0] + " " + Join(ws[1..])
  }

  /** One line with single spaces: the only whitespace is `' '`, it neither
      starts nor ends the text, and no two spaces are adjacent. */
  predicate IsCollapsed(t: string) {
    && (forall i | 0 <= i < |t| :: IsSpace(t[i]) ==> t[i] == ' ')
    && (|t| > 0 ==> !IsSpace(t[0]) && !IsSpace(t[|t| - 1]))
    && (forall i | 0 <= i < |t| - 1 :: !(t[i] == ' ' && t[i + 1] == ' '))
  }

  lemma {:induction false} JoinCollapsed(ws: seq<string>)
    requires forall i | 0 <= i < |ws| :: IsWord(ws[i])
    ensures IsCollapsed(Join(ws))
    ensures |ws| > 0 ==> |Join(ws)| > 0
    decreases |ws|
  {
    if |ws| > 1 {
      var w, rest := ws[0], Join(ws[1..]);
      JoinCollapsed(ws[1..]);
      var t := w + " " + rest;
      assert t == Join(ws);
      forall i | 0 <= i < |t| - 1
        ensures !(t[i] == ' ' && t[i + 1] == ' ')
      {
        if i < |w| {
          assert t[i] == w[i];
        } else if i == |w| {
          assert t[i + 1] == rest[0];
        } else {
          assert t[i] == rest[i - |w| - 1] && t[i + 1] == rest[i - |w|];
        }
      }
      forall i | 0 <= i < |t| && IsSpace(t[i])
        ensures t[i] == ' '
      {
        if i > |w| {
          assert t[i] == rest[i - |w| - 1];
        }
      }
      assert t[|t| - 1] == rest[|rest| - 1];
    }
  }

  /** A joined text splits back into the words it was joined from. */
  lemma {:induction false} SplitJoin(ws: seq<string>)
    requires forall i | 0 <= i < |ws| :: IsWord(ws[i])
    ensures Split(Join(ws)) == ws
    decreases |ws|
  {
    if |ws| == 1 {
      var w := ws[0];
      WordLenOfWord(w, "");
      assert w + "" == w;
      assert w[..|w|] == w && w[|w|..] == "";
    } else if |ws| > 1 {
      var w, rest := ws[0], Join(ws[1..]);
      var t := w + " " + rest;
      SplitJoin(ws[1..]);
      WordLenOfWord(w, " " + rest);
      assert t == w + (" " + rest);
      assert t[..|w|] == w;
      assert t[|w|..] == " " + rest;
      assert (" " + rest)[1..] == rest;
      assert ws == [w] + ws[1..];
    }
  }

  lemma {:induction false} WordLenOfWord(w: string, t: string)
    requires IsWord(w)
    requires |t| == 0 || IsSpace(t[0])
    ensures WordLen(w + t) == |w|
    decreases |w|
  {
    if |w| > 1 {
      assert (w + t)[1..] == w[1..] + t;
      WordLenOfWord(w[1..], t);
    } else {
      assert (w + t)[1..] == t;
    }
  }

  lemma {:induction false} CollapseNoLonger(s: string)
    ensures |Join(Split(s))| <= |s|
    decreases |s|
  {
    if |s| > 0 {
      if IsSpace(s[0]) {
        CollapseNoLonger(s[1..]);
      } else {
        var n := WordLen(s);
        if n == |s| {
          assert s[n..] == "";
        } else {
          assert Split(s[n..]) == Split(s[n + 1..]) by {
            assert s[n..][1..] == s[n + 1..];
          }
          CollapseNoLonger(s[n + 1..]);
          JoinConsLength(s[..n], Split(s[n + 1..]));
        }
      }
    }
  }

  lemma JoinConsLength(w: string, ws: seq<string>)
    ensures |Join([w] + ws)| <= |w| + 1 + |Join(ws)|
  {
    if |ws| > 0 {
      assert ([w] + ws)[1..] == ws;
    }
  }

  /** `" ".join(s.split())`. */
  function Collapse(s: string): (t: string)
    ensures IsCollapsed(t)
    ensures |t| <= |s|
    ensures Split(t) == Split(s)
  {
    JoinCollapsed(Split(s));
    CollapseNoLonger(s);
    SplitJoin(Split(s));
    Join(Split(s))
  }

  lemma CollapseIdempotent(s: string)
    ensures Collapse(Collapse(s)) == Collapse(s)
  {
  }
}
