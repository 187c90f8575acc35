/**
 * The recent-colours history: a most-recent-first list of at most eight
 * colour strings, rewritten in full to the browser's storage after every
 * addition. It is loaded from storage unchecked, so nothing is assumed about
 * the list it starts from.
 */
module RecentColors {
  import opened Wrappers
  import HexColor

  /** `recentColors.slice(0, 8)`: the history keeps at most eight colours. */
  const Capacity: nat := 8

  function Min(a: int, b: int): int {
    if a <= b then a else b
  }

  /** No colour appears twice. */
  predicate NoDup(s: seq<string>) {
    forall i, j :: 0 <= i < j < |s| ==> s[i] != s[j]
  }

  /**
   * `s.filter(c => c !== color)`: every entry except exact matches of
   * `color`, in their original order.
   */
  function Without(s: seq<string>, color: string): (r: seq<string>)
    ensures forall x :: x in r <==> x in s && x != color
    ensures color in s ==> |r| < |s|
    ensures color !in s ==> r == s
  {
    if s == [] then []
    else if s[0] == color then Without(s[1..], color)
    else [s[0]] + Without(s[1..], color)
  }

  /**
   * The list after `addToRecentColors(color)`: `color` in front, then the
   * other entries in their old order, cut to eight in all.
   */
  function AddRecent(s: seq<string>, color: string): (r: seq<string>)
    ensures |r| == Min(|Without(s, color)| + 1, Capacity)
    ensures r[0] == color && color !in r[1..]
    ensures r[1..] == Without(s, color)[..|r| - 1]
  {
    var t := [color] + Without(s, color);
    if |t| > Capacity then t[..Capacity] else t
  }

  /** Filtering works piecewise, so it keeps the relative order of what it keeps. */
  lemma {:induction false} WithoutConcat(a: seq<string>, b: seq<string>, color: string)
    ensures Without(a + b, color) == Without(a, color) + Without(b, color)
  {
    if a == [] {
      assert a + b == b;
    } else {
      assert (a + b)[1..] == a[1..] + b;
      WithoutConcat(a[1..], b, color);
    }
  }

  /** Filtering drops exactly the occurrences of the colour: the other counts are unchanged. */
  lemma {:induction false} WithoutCounts(s: seq<string>, color: string)
    ensures multiset(Without(s, color)) == multiset(s)[color := 0]
  {
    if s != [] {
      WithoutCounts(s[1..], color);
      assert s == [s[0]] + s[1..];
    }
  }

  /** Filtering a duplicate-free list keeps it duplicate-free. */
  lemma {:induction false} WithoutNoDup(s: seq<string>, color: string)
    requires NoDup(s)
    ensures NoDup(Without(s, color))
  {
    if s != [] {
      WithoutNoDup(s[1..], color);
      if s[0] != color {
        assert s[0] !in s[1..];
      }
    }
  }

  /** Re-adding a colour that is already present never makes the list longer. */
  lemma ReAddNeverGrows(s: seq<string>, color: string)
    requires color in s
    ensures |AddRecent(s, color)| <= |s|
  {
  }

  /** Adding the same colour twice in a row is the same as adding it once. */
  lemma AddIdempotent(s: seq<string>, color: string)
    ensures AddRecent(AddRecent(s, color), color) == AddRecent(s, color)
  {
    var r := AddRecent(s, color);
    assert r == [r[0]] + r[1..];
    WithoutConcat([color], r[1..], color);
  }

  /** A duplicate-free history stays duplicate-free. */
  lemma AddKeepsNoDup(s: seq<string>, color: string)
    requires NoDup(s)
    ensures NoDup(AddRecent(s, color))
  {
    var r := AddRecent(s, color);
    WithoutNoDup(s, color);
    assert NoDup(r[1..]);
  }

  /** Without that, the loaded list's duplicates survive: the guarantee needs the assumption. */
  lemma DuplicatesSurvive()
    ensures AddRecent(["#aaaaaa", "#aaaaaa"], "#bbbbbb") == ["#bbbbbb", "#aaaaaa", "#aaaaaa"]
  {
  }

  /**
   * A full history of distinct colours loses only its oldest entry when a
   * new colour is added.
   */
  lemma EvictsOldest(s: seq<string>, color: string)
    requires |s| == Capacity && color !in s
    ensures AddRecent(s, color) == [color] + s[..Capacity - 1]
  {
  }

  /** The history built up from empty by adding `colors` in order. */
  function History(colors: seq<string>): (r: seq<string>)
    ensures |r| <= Capacity
  {
    if colors == [] then []
    else AddRecent(History(colors[..|colors| - 1]), colors[|colors| - 1])
  }

  /** Most recent first. */
  function Reverse(s: seq<string>): (r: seq<string>)
    ensures |r| == |s|
    ensures forall i :: 0 <= i < |s| ==> r[i] == s[|s| - 1 - i]
  {
    if s == [] then [] else [s[|s| - 1]] + Reverse(s[..|s| - 1])
  }

  /**
   * Adding distinct colours to an empty history leaves the latest eight of
   * them, newest first; the older ones are evicted.
   */
  lemma {:induction false} HistoryOfDistinct(colors: seq<string>)
    requires NoDup(colors)
    ensures History(colors) == Reverse(colors)[..Min(|colors|, Capacity)]
  {
    if colors != [] {
      var n := |colors|;
      var p, x := colors[..n - 1], colors[n - 1];
      HistoryOfDistinct(p);
      var h := History(p);
      assert x !in p;
      assert x !in h;
      assert Reverse(colors) == [x] + Reverse(p);
    }
  }

  /** Nine distinct colours from empty: eight remain, newest first, the first evicted. */
  lemma NineDistinct(c1: string, c2: string, c3: string, c4: string, c5: string,
                     c6: string, c7: string, c8: string, c9: string)
    requires NoDup([c1, c2, c3, c4, c5, c6, c7, c8, c9])
    ensures History([c1, c2, c3, c4, c5, c6, c7, c8, c9]) == [c9, c8, c7, c6, c5, c4, c3, c2]
  {
    HistoryOfDistinct([c1, c2, c3, c4, c5, c6, c7, c8, c9]);
  }

  lemma ReAddScenario()
    ensures History(["#111111", "#222222", "#111111"]) == ["#111111", "#222222"]
  {
    assert ["#111111", "#222222", "#111111"][..2] == ["#111111", "#222222"];
    assert ["#111111", "#222222"][..1] == ["#111111"];
  }

  /**
   * The module-level `recentColors` list and the value last written to
   * `localStorage['recentColors']` (decoded from JSON).
   */
  class RecentColorsStore {
    var colors: seq<string>
    ghost var stored: Option<seq<string>>

    /**
     * Startup: the decoded stored list if there is one, else the empty list
     * (`JSON.parse(...) || []`). Storage is left as it was.
     */
    constructor Load(saved: Option<seq<string>>)
      ensures stored == saved
      ensures colors == if saved.Some? then saved.value else []
    {
      colors := if saved.Some? then saved.value else [];
      stored := saved;
    }

    /**
     * `addToRecentColors(color)`: filter out `color`, put it in front, cut
     * to eight and write the whole list back to storage.
     */
    method Add(color: string)
      modifies this
      ensures colors == AddRecent(old(colors), color)
      ensures stored == Some(colors)
      ensures 1 <= |colors| <= Capacity && colors[0] == color && color !in colors[1..]
      ensures NoDup(old(colors)) ==> NoDup(colors)
    {
      colors := Without(colors, color);
      colors := [color] + colors;
      if |colors| > Capacity {
        colors := colors[..Capacity];
      }
      stored := Some(colors);
      if NoDup(old(colors)) {
        AddKeepsNoDup(old(colors), color);
      }
    }

    /**
     * Text typed into the hex field: recorded only when it passes
     * `/^#[0-9A-F]{6}$/i`, which also guarantees it parses.
     */
    method HexInput(text: string) returns (accepted: bool)
      modifies this
      ensures accepted <==> HexColor.PassesInputGuard(text)
      ensures accepted ==> HexColor.HexToRgb(text).Some?
      ensures accepted ==> colors == AddRecent(old(colors), text) && stored == Some(colors)
      ensures !accepted ==> colors == old(colors) && stored == old(stored)
    {
      accepted := HexColor.PassesInputGuard(text);
      if accepted {
        HexColor.GuardImpliesParses(text);
        Add(text);
      }
    }
  }
}
