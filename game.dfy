/** The session state of js/game.js: the global score, target, speed and spawn counters, the
    list of live bubbles and the list of selected bubbles, together with the tap handler, the
    frame step, the deferred deselection after a wrong pair, and starting and ending a game. */
module Game {
  import opened Bubbles

  /** updateTarget's draw: Math.floor(r * 41) + 10. */
  function RolledTarget(r: real): (t: int)
    requires Unit(r)
    ensures 10 <= t <= 50
  {
    var scaled := r * 41.0;
    assert scaled < 41.0;
    scaled.Floor + 10
  }

  /** Every target from 10 to 50 is rolled by some Math.random() result. */
  lemma EveryTargetDrawable(t: int)
    requires 10 <= t <= 50
    ensures exists r :: Unit(r) && RolledTarget(r) == t
  {
    var r := (t - 10) as real / 41.0;
    assert r * 41.0 == (t - 10) as real;
    assert RolledTarget(r) == t;
  }

  /** The spawn interval set after each spawn: Math.max(800, 1500 - score * 0.5) milliseconds. */
  function SpawnRateFor(score: int): (rate: real)
    ensures 800.0 <= rate
    ensures score >= 0 ==> rate <= 1500.0
  {
    var slowed := 1500.0 - score as real * 0.5;
    if slowed > 800.0 then slowed else 800.0
  }

  /** Spawning only speeds up as the score grows. */
  lemma SpawnRateNeverRises(low: int, high: int)
    requires low <= high
    ensures SpawnRateFor(high) <= SpawnRateFor(low)
  {
  }

  /** The interval bottoms out at 800 ms exactly from a score of 1400 on. */
  lemma SpawnRateFloor(score: int)
    ensures SpawnRateFor(score) == 800.0 <==> score >= 1400
  {
  }

  /** Scores only ever move in steps of 20, so the test `score % 50 == 0` that re-rolls the
      target after a match fires exactly at multiples of 100. */
  lemma RerollEveryHundred(score: int)
    requires score % 20 == 0
    ensures score % 50 == 0 <==> score % 100 == 0
  {
    var q, r := score / 100, score % 100;
    assert score == 100 * q + r;
    assert r % 20 == 0;
    assert r == 0 || r == 20 || r == 40 || r == 60 || r == 80;
  }

  predicate Distinct<T(==)>(s: seq<T>) {
    forall p, q :: 0 <= p < q < |s| ==> s[p] != s[q]
  }

  /** `s.filter(y => y !== x)`. */
  function Without<T(==)>(s: seq<T>, x: T): (r: seq<T>)
    ensures forall k :: 0 <= k < |r| ==> r[k] in s && r[k] != x
    ensures forall k :: 0 <= k < |s| && s[k] != x ==> s[k] in r
    ensures Distinct(s) ==> Distinct(r)
    ensures x !in s ==> r == s
    ensures Distinct(s) && x in s ==> |r| == |s| - 1
  {
    if s == [] then []
    else if s[0] == x then Without(s[1..], x)
    else [s[0]] + Without(s[1..], x)
  }

  /** The selection list after the tapped bubble `b` is toggled: filtered out if it was
      selected, pushed at the end if it was not. */
  function Toggled<T(==)>(sel: seq<T>, b: T, wasSelected: bool): seq<T> {
    if wasSelected then Without(sel, b) else sel + [b]
  }

  /** The check made when exactly two bubbles are selected: their numbers sum to the target. */
  predicate IsPair(sel: seq<Bubble>, target: int) {
    |sel| == 2 && sel[0].value + sel[1].value == target
  }

  /** A bubble a tap at (mx, my) can act on: hit, and not already popping. */
  predicate Tappable(s: BubbleState, mx: real, my: real) {
    Hits(s, mx, my) && !s.popping
  }

  /** The bubble a tap acts on: the one with the highest index (drawn last, so on top) that the
      tap hits and that is not popping, or -1 when there is none. */
  function TopHit(views: seq<BubbleState>, mx: real, my: real): (i: int)
    ensures -1 <= i < |views|
    ensures i >= 0 ==> Tappable(views[i], mx, my)
    ensures forall k :: i < k < |views| ==> !Tappable(views[k], mx, my)
  {
    if views == [] then -1
    else if Tappable(views[|views| - 1], mx, my) then |views| - 1
    else TopHit(views[..|views| - 1], mx, my)
  }

  /** TopHit is the only index with its two properties: a search that stops at a tappable
      bubble above which none is tappable, or finds none at all, has found TopHit. */
  lemma {:induction false} TopHitUnique(views: seq<BubbleState>, mx: real, my: real, i: int)
    requires -1 <= i < |views|
    requires i >= 0 ==> Tappable(views[i], mx, my)
    requires forall k :: i < k < |views| ==> !Tappable(views[k], mx, my)
    ensures i == TopHit(views, mx, my)
  {
    if views != [] && i < |views| - 1 {
      var init := views[..|views| - 1];
      assert forall k :: i < k < |init| ==> init[k] == views[k];
      TopHitUnique(init, mx, my, i);
    }
  }

  /** The bubbles that remain after one frame: each stepped once, in their order, dropping
      those whose opacity has fallen to 0 or below. */
  function Survivors(vs: seq<BubbleState>, sin: real -> real): (r: seq<BubbleState>)
    ensures |r| <= |vs|
  {
    if vs == [] then []
    else
      var t := Stepped(vs[0], sin);
      (if t.opacity > 0 then [t] else []) + Survivors(vs[1..], sin)
  }

  /** A state remains after the frame exactly when it is the step of some state that leaves
      it visible. */
  lemma {:induction false} SurvivorsAreVisibleSteps(vs: seq<BubbleState>, sin: real -> real)
    ensures forall t {:trigger t in Survivors(vs, sin)} :: t in Survivors(vs, sin) ==>
      t.opacity > 0 && exists k :: 0 <= k < |vs| && t == Stepped(vs[k], sin)
    ensures forall k :: 0 <= k < |vs| && Stepped(vs[k], sin).opacity > 0 ==> Stepped(vs[k], sin) in Survivors(vs, sin)
  {
    if vs != [] {
      SurvivorsAreVisibleSteps(vs[1..], sin);
      forall t | t in Survivors(vs[1..], sin)
        ensures exists k :: 0 <= k < |vs| && t == Stepped(vs[k], sin)
      {
        var k :| 0 <= k < |vs[1..]| && t == Stepped(vs[1..][k], sin);
        assert t == Stepped(vs[k + 1], sin);
      }
      forall k | 1 <= k < |vs| && Stepped(vs[k], sin).opacity > 0
        ensures Stepped(vs[k], sin) in Survivors(vs, sin)
      {
        assert vs[1..][k - 1] == vs[k];
      }
    }
  }

  /** After its step, the bubble is above the top edge by more than its radius and not popping. */
  predicate Escapes(t: BubbleState) {
    t.y < -t.radius && !t.popping
  }

  /** Whether the frame over `vs` meets the game-over condition for some bubble. */
  function AnyEscapes(vs: seq<BubbleState>, sin: real -> real): bool
  {
    if vs == [] then false
    else Escapes(Stepped(vs[0], sin)) || AnyEscapes(vs[1..], sin)
  }

  /** The game ends in a frame exactly when some bubble escapes in it. */
  lemma {:induction false} AnyEscapesIffSome(vs: seq<BubbleState>, sin: real -> real)
    ensures AnyEscapes(vs, sin) <==> exists k :: 0 <= k < |vs| && Escapes(Stepped(vs[k], sin))
  {
    if vs != [] {
      AnyEscapesIffSome(vs[1..], sin);
      if AnyEscapes(vs[1..], sin) {
        var k :| 0 <= k < |vs[1..]| && Escapes(Stepped(vs[1..][k], sin));
        assert vs[1..][k] == vs[k + 1];
      }
      if k :| 1 <= k < |vs| && Escapes(Stepped(vs[k], sin)) {
        assert vs[1..][k - 1] == vs[k];
      }
    }
  }

  /** The objects a list refers to, as a set, for frames. */
  function Objects(s: seq<Bubble>): set<Bubble> {
    set b | b in s
  }

  ghost function ViewsOf(bs: seq<Bubble>): (vs: seq<BubbleState>)
    reads bs
    ensures |vs| == |bs| && forall k {:trigger vs[k]} :: 0 <= k < |bs| ==> vs[k] == bs[k].State()
  {
    if bs == [] then [] else [bs[0].State()] + ViewsOf(bs[1..])
  }

  /** The objects of `objs` (whose states before the frame are `vs`) that survive the frame:
      the same objects in the same order, minus those whose step leaves them at opacity 0. */
  function Surviving(objs: seq<Bubble>, vs: seq<BubbleState>, sin: real -> real): (r: seq<Bubble>)
    requires |objs| == |vs|
    ensures |r| <= |objs|
  {
    if objs == [] then []
    else
      var rest := Surviving(objs[1..], vs[1..], sin);
      if Stepped(vs[0], sin).opacity > 0 then [objs[0]] + rest else rest
  }

  /** An object survives the frame exactly when its step leaves it visible. */
  lemma {:induction false} SurvivingMembers(objs: seq<Bubble>, vs: seq<BubbleState>, sin: real -> real)
    requires |objs| == |vs|
    ensures var r := Surviving(objs, vs, sin);
      (forall j :: 0 <= j < |r| ==>
        exists k :: 0 <= k < |objs| && r[j] == objs[k] && Stepped(vs[k], sin).opacity > 0) &&
      (forall k :: 0 <= k < |objs| && Stepped(vs[k], sin).opacity > 0 ==> objs[k] in r)
  {
    if objs != [] {
      SurvivingMembers(objs[1..], vs[1..], sin);
      var rest := Surviving(objs[1..], vs[1..], sin);
      var r := Surviving(objs, vs, sin);
      forall j | 0 <= j < |r|
        ensures exists k :: 0 <= k < |objs| && r[j] == objs[k] && Stepped(vs[k], sin).opacity > 0
      {
        if Stepped(vs[0], sin).opacity > 0 && j == 0 {
          assert r[0] == objs[0];
        } else {
          var j' := if Stepped(vs[0], sin).opacity > 0 then j - 1 else j;
          assert r[j] == rest[j'];
          var k' :| 0 <= k' < |objs| - 1 && rest[j'] == objs[1..][k'] && Stepped(vs[1..][k'], sin).opacity > 0;
          assert r[j] == objs[k' + 1];
        }
      }
      forall k | 0 <= k < |objs| && Stepped(vs[k], sin).opacity > 0
        ensures objs[k] in r
      {
        if k > 0 {
          assert objs[1..][k - 1] in rest;
        }
      }
    }
  }

  /** Removing objects keeps a list of distinct objects distinct. */
  lemma {:induction false} SurvivingDistinct(objs: seq<Bubble>, vs: seq<BubbleState>, sin: real -> real)
    requires |objs| == |vs| && Distinct(objs)
    ensures Distinct(Surviving(objs, vs, sin))
  {
    if objs != [] {
      var tail := objs[1..];
      assert Distinct(tail) by {
        forall p, q | 0 <= p < q < |tail| ensures tail[p] != tail[q] {
          assert tail[p] == objs[p + 1] && tail[q] == objs[q + 1];
        }
      }
      SurvivingDistinct(tail, vs[1..], sin);
      var rest := Surviving(tail, vs[1..], sin);
      if Stepped(vs[0], sin).opacity > 0 {
        assert objs[0] !in rest by {
          SurvivingWithin(tail, vs[1..], sin);
          forall k | 0 <= k < |tail| ensures tail[k] != objs[0] {
            assert tail[k] == objs[k + 1];
          }
        }
        DistinctCons(objs[0], rest);
      }
    }
  }

  /** Every survivor is one of the objects. */
  lemma {:induction false} SurvivingWithin(objs: seq<Bubble>, vs: seq<BubbleState>, sin: real -> real)
    requires |objs| == |vs|
    ensures forall c {:trigger c in Surviving(objs, vs, sin)} :: c in Surviving(objs, vs, sin) ==> c in objs
  {
    if objs != [] {
      SurvivingWithin(objs[1..], vs[1..], sin);
    }
  }

  lemma DistinctCons<T>(x: T, s: seq<T>)
    requires x !in s && Distinct(s)
    ensures Distinct([x] + s)
  {
    var r := [x] + s;
    forall p, q | 0 <= p < q < |r| ensures r[p] != r[q] {
      assert r[q] == s[q - 1];
      if p > 0 {
        assert r[p] == s[p - 1];
      }
    }
  }

  /** Once every bubble has taken its step, each survivor is one of the bubbles, well formed
      and visible. */
  lemma SurvivorsStayValid(objs: seq<Bubble>, vs: seq<BubbleState>, sin: real -> real)
    requires forall k :: 0 <= k < |objs| && k < |vs| ==> WellFormed(vs[k])
    requires Stepping(objs, vs, 0, sin)
    ensures forall c {:trigger c in Surviving(objs, vs, sin)} :: c in Surviving(objs, vs, sin) ==>
      c in objs && c.Valid() && c.opacity > 0
  {
    SurvivingMembers(objs, vs, sin);
    var r := Surviving(objs, vs, sin);
    forall c | c in r ensures c in objs && c.Valid() && c.opacity > 0 {
      var j :| 0 <= j < |r| && r[j] == c;
      var k :| 0 <= k < |objs| && r[j] == objs[k] && Stepped(vs[k], sin).opacity > 0;
    }
  }

  /** When every object has taken its step, the states of the surviving objects are exactly
      the surviving states. */
  lemma {:induction false} ViewsOfSurviving(objs: seq<Bubble>, vs: seq<BubbleState>, sin: real -> real)
    requires |objs| == |vs|
    requires Stepping(objs, vs, 0, sin)
    ensures ViewsOf(Surviving(objs, vs, sin)) == Survivors(vs, sin)
  {
    if objs != [] {
      assert Stepping(objs[1..], vs[1..], 0, sin);
      ViewsOfSurviving(objs[1..], vs[1..], sin);
      var rest := Surviving(objs[1..], vs[1..], sin);
      if Stepped(vs[0], sin).opacity > 0 {
        assert ([objs[0]] + rest)[1..] == rest;
      }
    }
  }

  lemma PrefixStep<T>(bs: seq<T>, objs: seq<T>, i: int)
    requires 0 <= i < |bs| && i < |objs| && bs[..i + 1] == objs[..i + 1]
    ensures bs[i] == objs[i] && bs[..i] == objs[..i]
  {
    assert bs[..i] == bs[..i + 1][..i] && objs[..i] == objs[..i + 1][..i];
  }

  lemma SpliceStep(bs: seq<Bubble>, nb: seq<Bubble>, objs: seq<Bubble>, vs: seq<BubbleState>, sin: real -> real, i: int)
    requires |objs| == |vs| && 0 <= i < |objs| && i < |bs|
    requires bs[..i] == objs[..i] && bs[i] == objs[i]
    requires bs[i + 1..] == Surviving(objs[i + 1..], vs[i + 1..], sin)
    requires nb == if Stepped(vs[i], sin).opacity > 0 then bs else bs[..i] + bs[i + 1..]
    ensures i <= |nb| && nb[..i] == objs[..i]
    ensures nb[i..] == Surviving(objs[i..], vs[i..], sin)
  {
    assert objs[i..][1..] == objs[i + 1..] && vs[i..][1..] == vs[i + 1..];
    assert bs[i..] == [bs[i]] + bs[i + 1..];
    if Stepped(vs[i], sin).opacity <= 0 {
      assert nb[..i] == bs[..i] && nb[i..] == bs[i + 1..];
    }
  }

  lemma EscapeStep(vs: seq<BubbleState>, sin: real -> real, i: int)
    requires 0 <= i < |vs|
    ensures AnyEscapes(vs[i..], sin) == (Escapes(Stepped(vs[i], sin)) || AnyEscapes(vs[i + 1..], sin))
  {
    assert vs[i..][1..] == vs[i + 1..];
  }

  ghost predicate Stepping(objs: seq<Bubble>, vs: seq<BubbleState>, i: int, sin: real -> real)
    reads Objects(objs)
  {
    |objs| == |vs| && 0 <= i <= |objs| &&
    (forall k :: 0 <= k < i ==> objs[k].State() == vs[k]) &&
    (forall k :: i <= k < |objs| ==> objs[k].State() == Stepped(vs[k], sin))
  }

  /** Step the bubble at index `i` of a list of distinct bubbles. */
  method Advance(b: Bubble, ghost objs: seq<Bubble>, ghost vs: seq<BubbleState>, i: int, sin: real -> real)
    requires 0 <= i < |objs| && b == objs[i] && Distinct(objs)
    requires Stepping(objs, vs, i + 1, sin) && WellFormed(vs[i])
    modifies b
    ensures Stepping(objs, vs, i, sin) && b.State() == Stepped(vs[i], sin)
  {
    b.Update(sin);
  }

  /** The page's global game variables. */
  class GameState {
    var score: int
    var currentTarget: int
    var gameActive: bool
    var bubbles: seq<Bubble>
    var selectedBubbles: seq<Bubble>
    var spawnRate: real
    var lastSpawn: real
    var gameSpeed: real

    /** Scores move in steps of 20; the target stays in [10, 50] and the spawn interval in
        [800, 1500]; the bubble list holds distinct, visible bubbles; and the selection list
        holds, once each, exactly the live bubbles that are selected and not popping. */
    ghost predicate Valid()
      reads this, bubbles
    {
      Counters() && Distinct(bubbles) &&
      (forall b {:trigger b in bubbles} :: b in bubbles ==> b.Valid() && b.opacity > 0) &&
      (forall b {:trigger b in selectedBubbles} :: b in selectedBubbles ==> b in bubbles && b.selected && !b.popping) &&
      (forall b {:trigger b in bubbles} :: b in bubbles && b.selected && !b.popping ==> b in selectedBubbles)
    }

    /** The part of Valid about the counters and the selection list alone. */
    ghost predicate Counters()
      reads this
    {
      0 <= score && score % 20 == 0 &&
      10 <= currentTarget <= 50 &&
      800.0 <= spawnRate <= 1500.0 &&
      1.0 <= gameSpeed &&
      Distinct(selectedBubbles)
    }

    /** The selection, described by positions in `objs`, whose states are `vs`. */
    ghost predicate SelectedAmong(objs: seq<Bubble>, vs: seq<BubbleState>)
      reads this
    {
      |objs| == |vs| &&
      (forall c {:trigger c in selectedBubbles} :: c in selectedBubbles ==>
        exists k :: 0 <= k < |objs| && objs[k] == c && vs[k].selected && !vs[k].popping) &&
      (forall k :: 0 <= k < |objs| && vs[k].selected && !vs[k].popping ==> objs[k] in selectedBubbles)
    }

    ghost function Views(): seq<BubbleState>
      reads this, bubbles
    {
      ViewsOf(bubbles)
    }

    /** The values the globals hold when the page loads. */
    constructor ()
      ensures Valid()
      ensures score == 0 && currentTarget == 10 && !gameActive
      ensures bubbles == [] && selectedBubbles == []
      ensures spawnRate == 1500.0 && lastSpawn == 0.0 && gameSpeed == 1.0
    {
      score, currentTarget, gameActive := 0, 10, false;
      bubbles, selectedBubbles := [], [];
      spawnRate, lastSpawn, gameSpeed := 1500.0, 0.0, 1.0;
    }

    /** updateTarget, with `r` the Math.random() result. */
    method UpdateTarget(r: real)
      requires Unit(r)
      modifies this`currentTarget
      ensures currentTarget == RolledTarget(r)
      ensures 10 <= currentTarget <= 50
    {
      currentTarget := RolledTarget(r);
    }

    /** startGame, with `targetDraw` the draw for the first target and `now` the clock. */
    method StartGame(targetDraw: real, now: real)
      requires Unit(targetDraw)
      modifies this
      ensures Valid() && gameActive
      ensures score == 0 && gameSpeed == 1.0 && spawnRate == 1500.0
      ensures bubbles == [] && selectedBubbles == []
      ensures currentTarget == RolledTarget(targetDraw) && lastSpawn == now
    {
      score := 0;
      gameSpeed := 1.0;
      spawnRate := 1500.0;
      bubbles := [];
      selectedBubbles := [];
      UpdateTarget(targetDraw);
      gameActive := true;
      lastSpawn := now;
    }

    /** endGame. */
    method EndGame()
      modifies this`gameActive
      ensures !gameActive
    {
      gameActive := false;
    }

    /** spawnBubble: push a new bubble for the current target and speed. */
    method SpawnBubble(width: real, height: real, d: SpawnDraws)
      requires Valid() && UnitDraws(d)
      modifies this`bubbles
      ensures Valid()
      ensures |bubbles| == |old(bubbles)| + 1 && bubbles[..|old(bubbles)|] == old(bubbles)
      ensures fresh(bubbles[|old(bubbles)|])
      ensures forall b {:trigger b in bubbles} :: b in bubbles ==> b in old(bubbles) || fresh(b)
      ensures Views() == old(Views()) + [Spawned(currentTarget, gameSpeed, width, height, d)]
    {
      var b := new Bubble(currentTarget, gameSpeed, width, height, d);
      bubbles := bubbles + [b];
      assert bubbles[..|old(bubbles)|] == old(bubbles);
    }

    /** What a tap acting on the bubble at index `i` does: the bubble's selected flag flips and
        the selection list is toggled; if that leaves two bubbles whose numbers sum to the
        target, both pop, 20 points are added, the list empties, the speed factor grows by 0.02
        and, when the new score is a multiple of 50, the target is re-rolled from `targetDraw`.
        No other flag changes. */
    twostate predicate TapEffect(i: int, targetDraw: real)
      reads this, Objects(bubbles)
    {
      bubbles == old(bubbles) && 0 <= i < |bubbles| && Unit(targetDraw) &&
      var tapped := bubbles[i];
      var sel := Toggled(old(selectedBubbles), tapped, old(tapped.selected));
      var matched := IsPair(sel, old(currentTarget));
      tapped.selected == !old(tapped.selected) &&
      (forall b {:trigger b in bubbles} :: b in bubbles && b != tapped ==> b.selected == old(b.selected)) &&
      (forall b {:trigger b in bubbles} :: b in bubbles ==> b.popping == (old(b.popping) || (matched && b in sel))) &&
      selectedBubbles == (if matched then [] else sel) &&
      score == old(score) + (if matched then 20 else 0) &&
      gameSpeed == old(gameSpeed) + (if matched then 0.02 else 0.0) &&
      currentTarget == (if matched && (old(score) + 20) % 50 == 0
                        then RolledTarget(targetDraw) else old(currentTarget))
    }

    /** Nothing a tap can change has changed. */
    twostate predicate Untouched()
      reads this, Objects(bubbles)
    {
      bubbles == old(bubbles) &&
      selectedBubbles == old(selectedBubbles) && score == old(score) &&
      currentTarget == old(currentTarget) && gameSpeed == old(gameSpeed) &&
      forall b {:trigger b in bubbles} :: b in bubbles ==> b.selected == old(b.selected) && b.popping == old(b.popping)
    }

    /** handleClick: ignored while no game runs; otherwise the bubble found by TopHit, if any,
        is toggled and a completed pair resolved as TapEffect says. A wrong pair stays selected
        until ClearSelection runs. */
    method HandleClick(mx: real, my: real, targetDraw: real)
      requires Valid() && Unit(targetDraw)
      modifies this, Objects(bubbles)`selected, Objects(bubbles)`popping
      ensures Valid()
      ensures bubbles == old(bubbles) && gameActive == old(gameActive)
      ensures spawnRate == old(spawnRate) && lastSpawn == old(lastSpawn)
      ensures !old(gameActive) || old(TopHit(Views(), mx, my)) < 0 ==> Untouched()
      ensures old(gameActive) && old(TopHit(Views(), mx, my)) >= 0 ==>
        TapEffect(old(TopHit(Views(), mx, my)), targetDraw)
    {
      if !gameActive {
        return;
      }
      ghost var views := Views();
      var i := |bubbles| - 1;
      while i >= 0
        invariant -1 <= i < |bubbles|
        invariant forall k :: i < k < |bubbles| ==> !Tappable(views[k], mx, my)
      {
        assert views[i] == bubbles[i].State();
        if bubbles[i].IsClicked(mx, my) && !bubbles[i].popping {
          break;
        }
        i := i - 1;
      }
      TopHitUnique(views, mx, my, i);
      ClickAt(i, views, mx, my, targetDraw);
    }

    /** The rest of handleClick once the search has stopped at `i`, the index TopHit gives
        (-1 when the tap hit nothing). */
    method ClickAt(i: int, ghost views: seq<BubbleState>, mx: real, my: real, targetDraw: real)
      requires Valid() && Unit(targetDraw)
      requires views == Views() && i == TopHit(views, mx, my)
      modifies this`selectedBubbles, this`score, this`gameSpeed, this`currentTarget
      modifies Objects(bubbles)`selected, Objects(bubbles)`popping
      ensures Valid()
      ensures bubbles == old(bubbles)
      ensures i < 0 ==> Untouched()
      ensures i >= 0 ==> TapEffect(i, targetDraw)
    {
      if i >= 0 {
        TapBubble(i, targetDraw);
      }
    }

    /** The body of handleClick's loop once it has found the bubble at index `i`. */
    method TapBubble(i: int, targetDraw: real)
      requires Valid() && Unit(targetDraw)
      requires 0 <= i < |bubbles| && !bubbles[i].popping
      modifies this`selectedBubbles, this`score, this`gameSpeed, this`currentTarget
      modifies Objects(bubbles)`selected, Objects(bubbles)`popping
      ensures Valid()
      ensures TapEffect(i, targetDraw)
      ensures bubbles == old(bubbles)
    {
      var tapped := bubbles[i];
      Toggle(tapped);
      ghost var sel := selectedBubbles;
      label Toggled:
      if IsPair(selectedBubbles, currentTarget) {
        assert forall c {:trigger c in selectedBubbles} :: c in selectedBubbles ==> c in old(bubbles);
        PopPair(targetDraw);
      }
    }

    /** The toggle of handleClick on the tapped bubble `b`: deselect it and filter it out of
        the selection list, or select it and push it onto the list. */
    method Toggle(b: Bubble)
      requires Valid() && b in bubbles && !b.popping
      modifies this`selectedBubbles, b`selected
      ensures Valid()
      ensures b.selected == !old(b.selected)
      ensures selectedBubbles == Toggled(old(selectedBubbles), b, old(b.selected))
    {
      if b.selected {
        b.selected := false;
        selectedBubbles := Without(selectedBubbles, b);
      } else {
        assert b !in selectedBubbles;
        b.selected := true;
        selectedBubbles := selectedBubbles + [b];
      }
    }

    /** The match branch of handleClick: pop every selected bubble adding 10 points each,
        empty the selection, speed up, and re-roll the target when the score is a multiple
        of 50. The popped bubbles stay selected. */
    method PopPair(targetDraw: real)
      requires Valid() && Unit(targetDraw) && IsPair(selectedBubbles, currentTarget)
      modifies this`selectedBubbles, this`score, this`gameSpeed, this`currentTarget
      modifies Objects(selectedBubbles)`popping
      ensures Valid()
      ensures forall c {:trigger c in bubbles} :: c in bubbles ==> c.popping == (old(c.popping) || c in old(selectedBubbles))
      ensures forall c {:trigger c in bubbles} :: c in bubbles ==> c.selected == old(c.selected)
      ensures selectedBubbles == [] && score == old(score) + 20
      ensures gameSpeed == old(gameSpeed) + 0.02
      ensures currentTarget == if score % 50 == 0 then RolledTarget(targetDraw) else old(currentTarget)
    {
      PopSelected();
      selectedBubbles := [];
      gameSpeed := gameSpeed + 0.02;
      if score % 50 == 0 {
        UpdateTarget(targetDraw);
      }
    }

    /** The forEach of a correct pair: every bubble in the selection starts popping and is
        worth 10 points. */
    method PopSelected()
      requires Valid()
      modifies Objects(selectedBubbles)`popping, this`score
      ensures forall c {:trigger c in bubbles} :: c in bubbles ==> c.popping == (old(c.popping) || c in selectedBubbles)
      ensures forall c {:trigger c in bubbles} :: c in bubbles ==> c.Valid() && c.opacity > 0 && (c.selected ==> c.popping)
      ensures score == old(score) + 10 * |selectedBubbles|
    {
      var k := 0;
      while k < |selectedBubbles|
        invariant 0 <= k <= |selectedBubbles|
        invariant score == old(score) + 10 * k
        invariant forall c {:trigger c in bubbles} :: c in bubbles ==> c.popping == (old(c.popping) || c in selectedBubbles[..k])
      {
        selectedBubbles[k].popping := true;
        score := score + 10;
        k := k + 1;
      }
      assert selectedBubbles[..k] == selectedBubbles;
    }

    /** The callback handleClick schedules 200 ms after a wrong pair: deselect every bubble
        then in the selection list and empty the list. It reads the list as it is when it
        runs, and may run at any later point. */
    method ClearSelection()
      requires Valid()
      modifies this`selectedBubbles, Objects(selectedBubbles)`selected
      ensures Valid()
      ensures selectedBubbles == []
      ensures forall b {:trigger b in old(selectedBubbles)} :: b in old(selectedBubbles) ==> !b.selected
      ensures forall b {:trigger b in bubbles} :: b in bubbles && b !in old(selectedBubbles) ==> b.selected == old(b.selected)
    {
      var k := 0;
      while k < |selectedBubbles|
        invariant 0 <= k <= |selectedBubbles| && selectedBubbles == old(selectedBubbles)
        invariant forall j :: 0 <= j < k ==> !selectedBubbles[j].selected
        invariant forall b {:trigger b in bubbles} :: b in bubbles && b !in selectedBubbles[..k] ==> b.selected == old(b.selected)
      {
        selectedBubbles[k].selected := false;
        k := k + 1;
      }
      selectedBubbles := [];
    }

    /** update(time), the frame step: spawn when more than spawnRate ms have passed since the
        last spawn (then re-derive spawnRate from the score), then step every bubble. `width`
        and `height` are the canvas size, `d` the draws for a new bubble and `sin` the sine
        used for the wobble. The ghost `objs` is the bubble list after the spawn: the old
        objects, with the new one pushed on the end when a spawn was due; the frame leaves
        those of them that stay visible, in order. */
    method Update(time: real, width: real, height: real, d: SpawnDraws, sin: real -> real)
      returns (ghost objs: seq<Bubble>)
      requires Valid() && UnitDraws(d)
      modifies this, Objects(bubbles)
      ensures Valid()
      ensures score == old(score) && currentTarget == old(currentTarget) && gameSpeed == old(gameSpeed)
      ensures selectedBubbles == old(selectedBubbles)
      ensures forall b {:trigger b in bubbles} :: b in bubbles ==> b in old(bubbles) || fresh(b)
      ensures !old(gameActive) ==>
        !gameActive && objs == bubbles == old(bubbles) && Views() == old(Views()) &&
        spawnRate == old(spawnRate) && lastSpawn == old(lastSpawn)
      ensures old(gameActive) ==>
        var spawned := time - old(lastSpawn) > old(spawnRate);
        var before := old(Views()) + (if spawned then [Spawned(currentTarget, gameSpeed, width, height, d)] else []);
        lastSpawn == (if spawned then time else old(lastSpawn)) &&
        spawnRate == (if spawned then SpawnRateFor(score) else old(spawnRate)) &&
        |objs| == |before| && objs[..|old(bubbles)|] == old(bubbles) &&
        bubbles == Surviving(objs, before, sin) &&
        Views() == Survivors(before, sin) &&
        gameActive == !AnyEscapes(before, sin)
    {
      objs := bubbles;
      if !gameActive {
        return;
      }
      MaybeSpawn(time, width, height, d);
      objs := bubbles;
      StepBubbles(sin);
    }

    /** The spawning part of update(time): when more than spawnRate ms have passed since the
        last spawn, add a bubble, note the time and re-derive spawnRate from the score. */
    method MaybeSpawn(time: real, width: real, height: real, d: SpawnDraws)
      requires Valid() && UnitDraws(d)
      modifies this`bubbles, this`lastSpawn, this`spawnRate
      ensures Valid()
      ensures forall b {:trigger b in bubbles} :: b in bubbles ==> b in old(bubbles) || fresh(b)
      ensures var spawned := time - old(lastSpawn) > old(spawnRate);
        |bubbles| == |old(bubbles)| + (if spawned then 1 else 0) &&
        bubbles[..|old(bubbles)|] == old(bubbles) &&
        lastSpawn == (if spawned then time else old(lastSpawn)) &&
        spawnRate == (if spawned then SpawnRateFor(score) else old(spawnRate)) &&
        Views() == old(Views()) + (if spawned then [Spawned(currentTarget, gameSpeed, width, height, d)] else [])
    {
      if time - lastSpawn > spawnRate {
        SpawnBubble(width, height, d);
        lastSpawn := time;
        spawnRate := SpawnRateFor(score);
      }
    }

    /** The loop of update(time): from the last bubble down, step it, end the game when it is
        not popping and has left the top by more than its radius, and splice it out when it
        has faded out. The list left behind is the old one, in order, minus the bubbles whose
        step took them to opacity 0. */
    method StepBubbles(sin: real -> real)
      requires Valid()
      modifies this`gameActive, this`bubbles, Objects(bubbles)
      ensures Valid()
      ensures bubbles == Surviving(old(bubbles), old(Views()), sin)
      ensures Views() == Survivors(old(Views()), sin)
      ensures gameActive == (old(gameActive) && !AnyEscapes(old(Views()), sin))
      ensures forall b {:trigger b in bubbles} :: b in bubbles ==> b in old(bubbles)
    {
      ghost var objs := bubbles;
      ghost var before := Views();
      ValidBeforeStep();
      WalkStart(sin);
      var n := |bubbles|;
      while n > 0
        invariant Walked(n, objs, before, sin, old(gameActive))
        invariant score == old(score) && currentTarget == old(currentTarget) && spawnRate == old(spawnRate)
        invariant gameSpeed == old(gameSpeed) && selectedBubbles == old(selectedBubbles)
      {
        StepAt(n, objs, before, sin, old(gameActive));
        n := n - 1;
      }
      WalkEnd(objs, before, sin, old(gameActive));
    }

    /** What Valid says about the bubbles before a frame, by position. */
    lemma ValidBeforeStep()
      requires Valid()
      ensures Counters() && Distinct(bubbles) && SelectedAmong(bubbles, Views())
      ensures forall k :: 0 <= k < |bubbles| ==> WellFormed(Views()[k])
    {
      var vs := Views();
      forall k | 0 <= k < |bubbles| ensures WellFormed(vs[k]) {
        assert bubbles[k] in bubbles;
      }
      forall c | c in selectedBubbles
        ensures exists k :: 0 <= k < |bubbles| && bubbles[k] == c && vs[k].selected && !vs[k].popping
      {
        var k :| 0 <= k < |bubbles| && bubbles[k] == c;
      }
      forall k | 0 <= k < |bubbles| && vs[k].selected && !vs[k].popping
        ensures bubbles[k] in selectedBubbles
      {
        assert bubbles[k] in bubbles;
      }
    }

    /** The frame keeps the game state valid: what survives is still distinct and visible,
        and the selected, non-popping bubbles neither move nor fade, so they all survive. */
    lemma ValidAfterStep(objs: seq<Bubble>, before: seq<BubbleState>, sin: real -> real)
      requires Counters() && Distinct(objs) && SelectedAmong(objs, before)
      requires forall k :: 0 <= k < |objs| ==> WellFormed(before[k])
      requires Stepping(objs, before, 0, sin) && bubbles == Surviving(objs, before, sin)
      ensures Valid() && Views() == Survivors(before, sin)
      ensures forall b {:trigger b in bubbles} :: b in bubbles ==> b in objs
    {
      ViewsOfSurviving(objs, before, sin);
      SurvivingDistinct(objs, before, sin);
      SurvivorsStayValid(objs, before, sin);
      SelectionSurvives(objs, before, sin);
    }

    /** Every selected bubble that is not popping survives the frame and stays selected, and
        every surviving bubble that is selected and not popping is in the selection. */
    lemma SelectionSurvives(objs: seq<Bubble>, before: seq<BubbleState>, sin: real -> real)
      requires SelectedAmong(objs, before)
      requires forall k :: 0 <= k < |objs| ==> WellFormed(before[k])
      requires Stepping(objs, before, 0, sin)
      ensures var r := Surviving(objs, before, sin);
        (forall c {:trigger c in selectedBubbles} :: c in selectedBubbles ==> c in r && c.selected && !c.popping) &&
        (forall c {:trigger c in r} :: c in r && c.selected && !c.popping ==> c in selectedBubbles)
    {
      SurvivingMembers(objs, before, sin);
      var r := Surviving(objs, before, sin);
      forall c | c in selectedBubbles ensures c in r && c.selected && !c.popping {
        var k :| 0 <= k < |objs| && objs[k] == c && before[k].selected && !before[k].popping;
      }
      forall c | c in r && c.selected && !c.popping ensures c in selectedBubbles {
        var j :| 0 <= j < |r| && r[j] == c;
        var k :| 0 <= k < |objs| && r[j] == objs[k] && Stepped(before[k], sin).opacity > 0;
      }
    }

    /** The loop of StepBubbles has handled the bubbles from index `i` on: those below `i` are
        untouched and still listed; those from `i` on have taken their step, and the ones left
        visible are listed after them, in order; the game is still on exactly when it was on
        at the start (`active0`) and none of the stepped bubbles escaped. */
    ghost predicate Walked(i: int, objs: seq<Bubble>, before: seq<BubbleState>, sin: real -> real, active0: bool)
      reads this, Objects(objs)
    {
      |objs| == |before| && 0 <= i <= |objs| && i <= |bubbles| && Distinct(objs) &&
      (forall k :: 0 <= k < |objs| ==> WellFormed(before[k])) &&
      Stepping(objs, before, i, sin) &&
      bubbles[..i] == objs[..i] &&
      bubbles[i..] == Surviving(objs[i..], before[i..], sin) &&
      gameActive == (active0 && !AnyEscapes(before[i..], sin))
    }

    /** One pass of the loop of update(time), on the bubble at index `i`. */
    method StepAt(n: int, ghost objs: seq<Bubble>, ghost before: seq<BubbleState>, sin: real -> real, ghost active0: bool)
      requires 0 < n && Walked(n, objs, before, sin, active0)
      modifies this`gameActive, this`bubbles, objs[n - 1]
      ensures Walked(n - 1, objs, before, sin, active0)
    {
      var i := n - 1;
      PrefixStep(bubbles, objs, i);
      ghost var pre := bubbles;
      var b := bubbles[i];
      Advance(b, objs, before, i, sin);
      if b.y < -b.radius && !b.popping {
        EndGame();
      }
      if b.opacity <= 0 {
        bubbles := bubbles[..i] + bubbles[i + 1..];
      }
      SpliceStep(pre, bubbles, objs, before, sin, i);
      EscapeStep(before, sin, i);
    }

    /** Before the loop nothing has been handled. */
    lemma WalkStart(sin: real -> real)
      requires Valid()
      ensures Walked(|bubbles|, bubbles, Views(), sin, gameActive)
    {
      ValidBeforeStep();
      var n := |bubbles|;
      assert bubbles[n..] == [] && Views()[n..] == [] && bubbles[..n] == bubbles;
    }

    /** After the loop every bubble has been handled. */
    lemma WalkEnd(objs: seq<Bubble>, before: seq<BubbleState>, sin: real -> real, active0: bool)
      requires Walked(0, objs, before, sin, active0) && Counters() && SelectedAmong(objs, before)
      ensures Valid() && bubbles == Surviving(objs, before, sin) && Views() == Survivors(before, sin)
      ensures gameActive == (active0 && !AnyEscapes(before, sin))
      ensures forall b {:trigger b in bubbles} :: b in bubbles ==> b in objs
    {
      assert objs[..0] == [] && objs[0..] == objs && before[0..] == before;
      ValidAfterStep(objs, before, sin);
    }
  }
}
