/**
 * Trapping rain water (src/array_rain.cc): the terrain is cut into horizontal levels
 * 1, 2, ... up to the highest column; at each level, a cell lower than the level holds
 * water when a column reaching the level stands somewhere to its left and somewhere to
 * its right.
 */
module Rain {
  /** Some column in [lo, hi) reaches level h. */
  function HasWallIn(s: seq<int>, h: int, lo: nat, hi: nat): bool
    requires lo <= hi <= |s|
    decreases hi - lo
  {
    lo < hi && (s[lo] >= h || HasWallIn(s, h, lo + 1, hi))
  }

  lemma {:induction false} HasWallInMeans(s: seq<int>, h: int, lo: nat, hi: nat)
    requires lo <= hi <= |s|
    ensures HasWallIn(s, h, lo, hi) <==> exists j :: lo <= j < hi && s[j] >= h
    decreases hi - lo
  {
    if lo < hi {
      HasWallInMeans(s, h, lo + 1, hi);
      if s[lo] >= h {
        assert lo <= lo < hi && s[lo] >= h;
      }
    }
  }

  /** Cell i holds water at level h: it is below h, with a wall on each side. */
  predicate Trapped(s: seq<int>, h: int, i: nat)
    requires i < |s|
  {
    s[i] < h && HasWallIn(s, h, 0, i) && HasWallIn(s, h, i + 1, |s|)
  }

  /** The number of cells below n holding water at level h. */
  function CountTrapped(s: seq<int>, h: int, n: nat): (c: nat)
    requires n <= |s|
    ensures c <= n
  {
    if n == 0 then 0 else CountTrapped(s, h, n - 1) + (if Trapped(s, h, n - 1) then 1 else 0)
  }

  /** The water held at level h. */
  function LevelWater(s: seq<int>, h: int): nat
  {
    CountTrapped(s, h, |s|)
  }

  /** The water held at the levels 1 to top. */
  function TotalWater(s: seq<int>, top: int): (w: nat)
    decreases top
  {
    if top <= 0 then 0 else TotalWater(s, top - 1) + LevelWater(s, top)
  }

  /** The highest column, as std::max_element finds it. */
  function MaxHeight(s: seq<int>): (m: int)
    requires |s| > 0
    ensures forall i :: 0 <= i < |s| ==> s[i] <= m
    ensures exists i :: 0 <= i < |s| && s[i] == m
  {
    if |s| == 1 then s[0]
    else
      var m := MaxHeight(s[1..]);
      assert s[1..][0] == s[1];
      if s[0] > m then s[0] else m
  }

  /** Before the first wall nothing is trapped. */
  lemma {:induction false} NoWallNoWater(s: seq<int>, h: int, n: nat)
    requires n <= |s| && forall j :: 0 <= j < n ==> s[j] < h
    ensures CountTrapped(s, h, n) == 0
  {
    if n > 0 {
      NoWallNoWater(s, h, n - 1);
      HasWallInMeans(s, h, 0, n - 1);
    }
  }

  /** Between two walls every cell is trapped. */
  lemma {:induction false} WaterBetweenWalls(s: seq<int>, h: int, a: nat, b: nat, k: nat)
    requires a < k <= b < |s| && s[a] >= h && s[b] >= h
    requires forall j :: a < j < b ==> s[j] < h
    ensures CountTrapped(s, h, k) == CountTrapped(s, h, a + 1) + (k - a - 1)
  {
    if k > a + 1 {
      WaterBetweenWalls(s, h, a, b, k - 1);
      HasWallInMeans(s, h, 0, k - 1);
      HasWallInMeans(s, h, k, |s|);
    }
  }

  /** A wall itself holds no water. */
  lemma WallNotTrapped(s: seq<int>, h: int, a: nat)
    requires a < |s| && s[a] >= h
    ensures CountTrapped(s, h, a + 1) == CountTrapped(s, h, a)
  {
  }

  /** After the last wall nothing is trapped. */
  lemma {:induction false} NoWaterAfterLastWall(s: seq<int>, h: int, a: nat, k: nat)
    requires a < k <= |s| && forall j :: a < j < |s| ==> s[j] < h
    ensures CountTrapped(s, h, k) == CountTrapped(s, h, a + 1)
  {
    if k > a + 1 {
      NoWaterAfterLastWall(s, h, a, k - 1);
      HasWallInMeans(s, h, k, |s|);
    }
  }

  /**
   * The inner loop of trapped_rain_water at one level: cells after a wall are counted
   * as maybe trapped, and the count is banked when the next wall appears.
   */
  method CountLevel(height: seq<int>, currentHeight: int) returns (trapped: int)
    ensures trapped == LevelWater(height, currentHeight)
  {
    trapped := 0;
    var sawFilledBlock := false;
    var maybeTrappedBlocks := 0;
    ghost var lastWall := 0;
    var i := 0;
    while i < |height|
      invariant 0 <= i <= |height|
      invariant sawFilledBlock ==> lastWall < i && height[lastWall] >= currentHeight
      invariant sawFilledBlock ==> forall j :: lastWall < j < i ==> height[j] < currentHeight
      invariant !sawFilledBlock ==> forall j :: 0 <= j < i ==> height[j] < currentHeight
      invariant maybeTrappedBlocks == if sawFilledBlock then i - 1 - lastWall else 0
      invariant trapped == if sawFilledBlock then CountTrapped(height, currentHeight, lastWall + 1) else 0
    {
      var h := height[i];
      if h >= currentHeight {
        if sawFilledBlock {
          WaterBetweenWalls(height, currentHeight, lastWall, i, i);
          WallNotTrapped(height, currentHeight, i);
          trapped := trapped + maybeTrappedBlocks;
          maybeTrappedBlocks := 0;
        } else {
          NoWallNoWater(height, currentHeight, i);
          WallNotTrapped(height, currentHeight, i);
        }
        sawFilledBlock := true;
        lastWall := i;
      } else {
        if sawFilledBlock {
          maybeTrappedBlocks := maybeTrappedBlocks + 1;
        }
      }
      i := i + 1;
    }
    if sawFilledBlock {
      NoWaterAfterLastWall(height, currentHeight, lastWall, |height|);
    } else {
      NoWallNoWater(height, currentHeight, |height|);
    }
  }

  /**
   * trapped_rain_water: the sum of the water held at each level from 1 up to the
   * highest column. The highest column is read through the first element, so the
   * height map must not be empty.
   */
  method TrappedRainWater(height: seq<int>) returns (totalTrappedBlocks: int)
    requires |height| > 0
    ensures totalTrappedBlocks == TotalWater(height, MaxHeight(height))
    ensures totalTrappedBlocks >= 0
  {
    totalTrappedBlocks := 0;
    var maxHeight := MaxHeight(height);
    var currentHeight := 1;
    while currentHeight <= maxHeight
      invariant 1 <= currentHeight <= if maxHeight < 1 then 1 else maxHeight + 1
      invariant totalTrappedBlocks == TotalWater(height, currentHeight - 1)
    {
      var level := CountLevel(height, currentHeight);
      totalTrappedBlocks := totalTrappedBlocks + level;
      currentHeight := currentHeight + 1;
    }
  }

  /** No level above the highest column holds water, so the levels up to it hold all of it. */
  lemma NoWaterAboveTop(s: seq<int>, h: int)
    requires |s| > 0 && h > MaxHeight(s)
    ensures LevelWater(s, h) == 0
  {
    NoWallNoWater(s, h, |s|);
  }

  /** A height map that never descends holds no water at any level. */
  lemma {:induction false} NonDecreasingLevelDry(s: seq<int>, h: int, n: nat)
    requires n <= |s| && forall i, j :: 0 <= i < j < |s| ==> s[i] <= s[j]
    ensures CountTrapped(s, h, n) == 0
  {
    if n > 0 {
      NonDecreasingLevelDry(s, h, n - 1);
      HasWallInMeans(s, h, 0, n - 1);
    }
  }

  /** Hence a non-decreasing height map traps nothing. */
  lemma {:induction false} NonDecreasingTrapsNothing(s: seq<int>, top: int)
    requires forall i, j :: 0 <= i < j < |s| ==> s[i] <= s[j]
    ensures TotalWater(s, top) == 0
    decreases top
  {
    if top > 0 {
      NonDecreasingTrapsNothing(s, top - 1);
      NonDecreasingLevelDry(s, top, |s|);
    }
  }

  /** The cells strictly between the first k walls, gap by gap. */
  function Gaps(walls: seq<nat>, k: nat): int
    requires k <= |walls|
  {
    if k < 2 then 0 else Gaps(walls, k - 1) + (walls[k - 1] as int - walls[k - 2] - 1)
  }

  /** `walls` lists, in increasing order, exactly the columns reaching level h. */
  predicate WallsAt(s: seq<int>, h: int, walls: seq<nat>)
  {
    (forall i :: 0 < i < |walls| ==> walls[i - 1] < walls[i]) &&
    (forall k :: 0 <= k < |walls| ==> walls[k] < |s|) &&
    (forall j :: 0 <= j < |s| ==> (s[j] >= h <==> j in walls))
  }

  /** Increasing step by step means increasing. */
  lemma {:induction false} StepsIncreasing(walls: seq<nat>, i: nat, j: nat)
    requires forall k :: 0 < k < |walls| ==> walls[k - 1] < walls[k]
    requires i < j < |walls|
    ensures walls[i] < walls[j]
    decreases j - i
  {
    if i + 1 < j {
      StepsIncreasing(walls, i + 1, j);
    }
  }

  /** Up to and including the k-th wall, the water is the sum of the gaps between walls. */
  lemma {:induction false} WaterUpToWall(s: seq<int>, h: int, walls: seq<nat>, k: nat)
    requires WallsAt(s, h, walls) && 1 <= k <= |walls|
    ensures CountTrapped(s, h, walls[k - 1] + 1) == Gaps(walls, k)
  {
    var w := walls[k - 1];
    assert s[w] >= h;
    if k == 1 {
      forall j | 0 <= j < w
        ensures s[j] < h
      {
        forall m | 0 < m < |walls|
          ensures walls[m] != j
        {
          StepsIncreasing(walls, 0, m);
        }
      }
      NoWallNoWater(s, h, w);
    } else {
      var v := walls[k - 2];
      WaterUpToWall(s, h, walls, k - 1);
      forall j | v < j < w
        ensures s[j] < h
      {
        forall m | 0 <= m < |walls|
          ensures walls[m] != j
        {
          if m < k - 2 {
            StepsIncreasing(walls, m, k - 2);
          } else if m > k - 1 {
            StepsIncreasing(walls, k - 1, m);
          }
        }
      }
      assert v < w;
      WaterBetweenWalls(s, h, v, w, w);
    }
    WallNotTrapped(s, h, w);
  }

  /** The water at a level is the sum of the gaps between consecutive walls. */
  lemma LevelWaterIsGaps(s: seq<int>, h: int, walls: seq<nat>)
    requires WallsAt(s, h, walls)
    ensures LevelWater(s, h) == Gaps(walls, |walls|)
  {
    if |walls| == 0 {
      NoWallNoWater(s, h, |s|);
    } else {
      var w := walls[|walls| - 1];
      WaterUpToWall(s, h, walls, |walls|);
      forall j | w < j < |s|
        ensures s[j] < h
      {
        forall m | 0 <= m < |walls| - 1
          ensures walls[m] != j
        {
          StepsIncreasing(walls, m, |walls| - 1);
        }
      }
      NoWaterAfterLastWall(s, h, w, |s|);
    }
  }

  /** The first row of the test table, level 1: two cells. */
  lemma RainExample1Level1()
    ensures LevelWater([0, 1, 0, 2, 1, 0, 1, 3, 2, 1, 2, 1], 1) == 2
  {
    LevelWaterIsGaps([0, 1, 0, 2, 1, 0, 1, 3, 2, 1, 2, 1], 1, [1, 3, 4, 6, 7, 8, 9, 10, 11]);
  }

  /** The first row of the test table, level 2: four cells. */
  lemma RainExample1Level2()
    ensures LevelWater([0, 1, 0, 2, 1, 0, 1, 3, 2, 1, 2, 1], 2) == 4
  {
    LevelWaterIsGaps([0, 1, 0, 2, 1, 0, 1, 3, 2, 1, 2, 1], 2, [3, 7, 8, 10]);
  }

  /** The first row of the test table: levels 1 to 3 hold 2, 4 and 0 cells. */
  lemma RainExample1()
    ensures TotalWater([0, 1, 0, 2, 1, 0, 1, 3, 2, 1, 2, 1], 3) == 6
  {
    RainExample1Level1();
    RainExample1Level2();
    LevelWaterIsGaps([0, 1, 0, 2, 1, 0, 1, 3, 2, 1, 2, 1], 3, [7]);
  }

  /** The second row of the test table, level 1: one cell. */
  lemma RainExample2Level1()
    ensures LevelWater([4, 2, 0, 3, 2, 5], 1) == 1
  {
    LevelWaterIsGaps([4, 2, 0, 3, 2, 5], 1, [0, 1, 3, 4, 5]);
  }

  /** The second row of the test table, level 2: one cell. */
  lemma RainExample2Level2()
    ensures LevelWater([4, 2, 0, 3, 2, 5], 2) == 1
  {
    LevelWaterIsGaps([4, 2, 0, 3, 2, 5], 2, [0, 1, 3, 4, 5]);
  }

  /** The second row of the test table, level 3: three cells. */
  lemma RainExample2Level3()
    ensures LevelWater([4, 2, 0, 3, 2, 5], 3) == 3
  {
    LevelWaterIsGaps([4, 2, 0, 3, 2, 5], 3, [0, 3, 5]);
  }

  /** The second row of the test table: levels 1 to 5 hold 1, 1, 3, 4 and 0 cells. */
  lemma RainExample2()
    ensures TotalWater([4, 2, 0, 3, 2, 5], 5) == 9
  {
    RainExample2Level1();
    RainExample2Level2();
    RainExample2Level3();
    LevelWaterIsGaps([4, 2, 0, 3, 2, 5], 4, [0, 5]);
    LevelWaterIsGaps([4, 2, 0, 3, 2, 5], 5, [5]);
  }
}
