/** Markup text cut into windows: every window ends just after a `>` (the last
    one may run to the end of the text without one). A pattern built only from
    `[^>]` and literal text that contains no `>` and ends with `>` can only
    match inside one window, from the window's first `<` to its `>`. */
module TagWindows {
  import opened Text

  function Concat(ws: seq<string>): (s: string)
    decreases |ws|
  {
    if ws == [] then [] else ws[0] + Concat(ws[1..])
  }

  /** The window ends with the `>` that closes its tag. */
  predicate Terminated(w: string) {
    w != [] && w[|w| - 1] == '>'
  }

  /** Non-empty, no `>` before the last character, and only the last window
      of a text may lack the closing `>`. */
  predicate WellWindowed(ws: seq<string>) {
    forall i | 0 <= i < |ws| ::
      ws[i] != [] && '>' !in ws[i][..|ws[i]| - 1] && (i < |ws| - 1 ==> Terminated(ws[i]))
  }

  /** `class=`, a quote, `tkk`, a quote, at `j`; the two quotes may differ. */
  predicate ClassTkkAt(s: string, j: nat) {
    && OccursAt(s, j, "class=")
    && j + 6 < |s| && IsQuote(s[j + 6])
    && OccursAt(s, j + 7, "tkk")
    && j + 10 < |s| && IsQuote(s[j + 10])
  }

  /** The text cut after every `>`. */
  function Windows(s: string): (ws: seq<string>)
    ensures Concat(ws) == s
    ensures WellWindowed(ws)
    decreases |s|
  {
    if s == [] then []
    else
      var g := IndexOfFrom(s, '>', 0);
      if g == |s| then
        assert s[..|s| - 1] == s[0..g][..|s| - 1];
        [s]
      else
        var rest := Windows(s[g + 1..]);
        assert s[..g + 1][..g] == s[0..g];
        assert s == s[..g + 1] + s[g + 1..];
        [s[..g + 1]] + rest
  }

  /** The first `c` from `i` on is at `j`. */
  lemma {:induction false} IndexOfFromIs(s: string, c: char, i: nat, j: nat)
    requires i <= j <= |s|
    requires c !in s[i..j]
    requires j == |s| || s[j] == c
    ensures IndexOfFrom(s, c, i) == j
    decreases j - i
  {
    if i < j {
      assert s[i] == s[i..j][0];
      assert s[i + 1..j] == s[i..j][1..];
      IndexOfFromIs(s, c, i + 1, j);
    }
  }

  /** Cutting the concatenation of well-formed windows gives the windows back. */
  lemma {:induction false} WindowsOfConcat(ws: seq<string>)
    requires WellWindowed(ws)
    ensures Windows(Concat(ws)) == ws
    decreases |ws|
  {
    if ws != [] {
      var w := ws[0];
      var s := Concat(ws);
      assert s == w + Concat(ws[1..]);
      assert WellWindowed(ws[1..]) by {
        forall i | 0 <= i < |ws[1..]|
          ensures ws[1..][i] != [] && '>' !in ws[1..][i][..|ws[1..][i]| - 1]
          ensures i < |ws[1..]| - 1 ==> Terminated(ws[1..][i])
        {
          assert ws[1..][i] == ws[i + 1];
        }
      }
      if Terminated(w) {
        assert s[0..|w| - 1] == w[..|w| - 1];
        IndexOfFromIs(s, '>', 0, |w| - 1);
        assert s[..|w|] == w;
        assert s[|w|..] == Concat(ws[1..]);
        WindowsOfConcat(ws[1..]);
        if ws[1..] == [] {
          assert Concat(ws[1..]) == [];
        }
      } else {
        assert |ws| == 1;
        assert Concat(ws[1..]) == [];
        assert s == w;
        assert s[0..|s|] == w[..|w| - 1] + [w[|w| - 1]];
        IndexOfFromIs(s, '>', 0, |s|);
      }
    }
  }

  /** The text before window `m`, window `m`, and the text after it. */
  lemma {:induction false} ConcatSplit(ws: seq<string>, m: nat)
    requires m < |ws|
    ensures Concat(ws) == Concat(ws[..m]) + ws[m] + Concat(ws[m + 1..])
    decreases m
  {
    if m == 0 {
      assert ws[..0] == [];
    } else {
      ConcatSplit(ws[1..], m - 1);
      assert ws[1..][..m - 1] == ws[1..m];
      assert ws[1..][m - 1] == ws[m];
      assert ws[1..][m..] == ws[m + 1..];
      assert ws[..m] == [ws[0]] + ws[1..m];
      assert Concat(ws[..m]) == ws[0] + Concat(ws[1..m]) by {
        assert ws[..m][1..] == ws[1..m];
      }
    }
  }
}
