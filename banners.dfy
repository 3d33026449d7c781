/** The phrase banners of the animated background, as values.

    A banner is a cloud-shaped sprite with a phrase on it that drifts across
    the scene from one side to the other.  At most five are live at once and
    no two show the same phrase.  Each frame may admit new banners, picked
    from a weighted pool of phrases, and then moves every live banner one
    step, ages it by one frame and retires it once it is off stage or too
    old.  Random draws are parameters; positions, speeds and lifetimes matter
    here only through the comparisons that admit and retire banners. */
module Banners {

  /** A draw of the browser's random number generator. */
  type Unit = r: real | 0.0 <= r < 1.0

  /** The most banners that may be live at once. */
  const MaxBanners: int := 5

  /** The phrase that appears more often than the others. */
  const Emphasised: string := "Прости меня"

  const ConstantPhrases: seq<string> := [
    "Прости меня", "Булочка", "Солнышко", "Жена", "Жёнушка",
    "Красотка", "Милашка", "Любимая", "Зайчик", "Дорогая",
    "Котенок", "Принцесса", "Зайка", "Судьба", "Созданы друг для друга"]

  const ExtraPhrases: seq<string> := ["Давай всё вернем", "Дай мне шанс", "Прости меня"]

  /** A live banner: its phrase, horizontal position and speed, the sign of
      its motion, its age in frames, the age it fades by, and the side it
      entered from (1 right, -1 left). */
  datatype Banner = Banner(text: string, x: real, speed: real, direction: int, life: int, maxLife: real, startSide: int)

  /** The random draws a new banner is built from. */
  datatype BannerRolls = BannerRolls(side: Unit, offset: Unit, speed: Unit, maxLife: Unit)

  /** The random draws of one frame. */
  datatype FrameRolls = FrameRolls(
    interval: Unit, pick: Unit, first: BannerRolls,
    chance: Unit, pickExtra: Unit, second: BannerRolls)

  // ---------------------------------------------------------------------
  // Admission

  /** A new banner: it enters just off stage on a random side, moves towards
      the other side and starts with age 0. */
  function NewBanner(text: string, r: BannerRolls): (b: Banner)
    ensures b.text == text && b.life == 0 && b.direction == -b.startSide
    ensures b.startSide == 1 || b.startSide == -1
    ensures b.startSide == 1 ==> 60.0 <= b.x < 80.0
    ensures b.startSide == -1 ==> -80.0 < b.x <= -60.0
    ensures 0.02 <= b.speed < 0.06 && 1200.0 <= b.maxLife < 2000.0
  {
    var side := if r.side < 0.5 then -1 else 1;
    var x := if side == 1 then 60.0 + r.offset * 20.0 else -60.0 - r.offset * 20.0;
    Banner(text, x, 0.02 + r.speed * 0.04, -side, 0, 1200.0 + r.maxLife * 800.0, side)
  }

  /** Some live banner shows `text`. */
  predicate HasText(s: seq<Banner>, text: string)
  {
    exists i :: 0 <= i < |s| && s[i].text == text
  }

  /** No two live banners show the same phrase. */
  ghost predicate DistinctTexts(s: seq<Banner>)
  {
    forall i, j :: 0 <= i < j < |s| ==> s[i].text != s[j].text
  }

  /** The pool invariant: at most five banners, pairwise distinct phrases. */
  ghost predicate PoolInvariant(s: seq<Banner>)
  {
    |s| <= MaxBanners && DistinctTexts(s)
  }

  /** Admission of a phrase: refused when five banners are live or one of
      them already shows the phrase, otherwise one new banner at the end. */
  function Admit(s: seq<Banner>, text: string, r: BannerRolls): (a: seq<Banner>)
    ensures |s| >= MaxBanners || HasText(s, text) ==> a == s
    ensures |s| < MaxBanners && !HasText(s, text) ==>
      && |a| == |s| + 1 && a[..|s|] == s
      && a[|s|].text == text && a[|s|].life == 0 && a[|s|].direction == -a[|s|].startSide
  {
    if |s| >= MaxBanners then s
    else if HasText(s, text) then s
    else s + [NewBanner(text, r)]
  }

  lemma AdmitKeepsInvariant(s: seq<Banner>, text: string, r: BannerRolls)
    requires PoolInvariant(s)
    ensures PoolInvariant(Admit(s, text, r))
  {
    var a := Admit(s, text, r);
    if a != s {
      forall i, j | 0 <= i < j < |a| ensures a[i].text != a[j].text {
        if j < |s| {
          assert a[i] == s[i] && a[j] == s[j];
        } else {
          assert a[i] == s[i];
        }
      }
    }
  }

  // ---------------------------------------------------------------------
  // Retirement

  /** One frame of motion and ageing. */
  function Advance(b: Banner): Banner
  {
    b.(x := b.x + b.direction as real * b.speed, life := b.life + 1)
  }

  /** Fully past the far edge of the stage. */
  predicate OffStage(b: Banner)
  {
    if b.startSide == 1 then b.x < -110.0 else b.x > 110.0
  }

  predicate OverAge(b: Banner)
  {
    b.life as real > b.maxLife * 1.5
  }

  /** A banner retires in this frame when, moved and aged, it is off stage
      or over age. */
  predicate Retires(b: Banner)
  {
    OffStage(Advance(b)) || OverAge(Advance(b))
  }

  /** What one frame's retirement pass leaves: every banner moved and aged,
      those that retire dropped. */
  function Survivors(s: seq<Banner>): (r: seq<Banner>)
    ensures |r| <= |s|
  {
    if s == [] then []
    else (if Retires(s[0]) then [] else [Advance(s[0])]) + Survivors(s[1..])
  }

  /** The survivors are exactly the banners that do not retire, each moved
      and aged by one frame. */
  lemma {:induction false} SurvivorsExactly(s: seq<Banner>)
    ensures forall c :: c in Survivors(s) ==> exists b :: b in s && !Retires(b) && c == Advance(b)
    ensures forall b :: b in s && !Retires(b) ==> Advance(b) in Survivors(s)
    decreases |s|
  {
    if s != [] {
      SurvivorsExactly(s[1..]);
      forall b | b in s && !Retires(b) ensures Advance(b) in Survivors(s) {
        if b != s[0] {
          var k :| 0 <= k < |s| && s[k] == b;
          assert s[1..][k - 1] == b;
        }
      }
    }
  }

  /** Survivors keep their relative order: the pass works banner by banner. */
  lemma {:induction false} SurvivorsAppend(a: seq<Banner>, b: seq<Banner>)
    ensures Survivors(a + b) == Survivors(a) + Survivors(b)
    decreases |a|
  {
    if a == [] {
      assert a + b == b;
    } else {
      assert (a + b)[0] == a[0];
      assert (a + b)[1..] == a[1..] + b;
      SurvivorsAppend(a[1..], b);
    }
  }

  /** Every survivor is one frame older than the banner it was. */
  lemma SurvivorsAgeByOne(s: seq<Banner>)
    ensures forall c :: c in Survivors(s) ==> exists b :: b in s && c.life == b.life + 1 && c.text == b.text
  {
    SurvivorsExactly(s);
  }

  lemma {:induction false} SurvivorsKeepInvariant(s: seq<Banner>)
    requires PoolInvariant(s)
    ensures PoolInvariant(Survivors(s))
    decreases |s|
  {
    if s != [] {
      var tail := s[1..];
      assert PoolInvariant(tail) by {
        forall i, j | 0 <= i < j < |tail| ensures tail[i].text != tail[j].text {
          assert tail[i] == s[i + 1] && tail[j] == s[j + 1];
        }
      }
      SurvivorsKeepInvariant(tail);
      SurvivorsExactly(tail);
      var rest := Survivors(tail);
      if !Retires(s[0]) {
        var h := Advance(s[0]);
        var r := [h] + rest;
        forall j | 0 <= j < |rest| ensures rest[j].text != h.text {
          assert rest[j] in rest;
          var b :| b in tail && !Retires(b) && rest[j] == Advance(b);
          var k :| 0 <= k < |tail| && tail[k] == b;
          assert s[k + 1] == b;
        }
        forall i, j | 0 <= i < j < |r| ensures r[i].text != r[j].text {
          if i == 0 {
            assert r[j] == rest[j - 1];
          } else {
            assert r[i] == rest[i - 1] && r[j] == rest[j - 1];
          }
        }
      }
    }
  }

  /** A banner just admitted never retires in its first frame: it starts at
      most 80 units from the centre and moves less than a unit per frame. */
  lemma NewBannerSurvivesFirstFrame(text: string, r: BannerRolls)
    ensures !Retires(NewBanner(text, r))
  {
  }

  // ---------------------------------------------------------------------
  // Phrase pools and the spawn step

  /** The pool of the timer-gated spawn: every phrase, plus three more
      copies of the emphasised one. */
  function TimedPool(): seq<string>
  {
    ConstantPhrases + ExtraPhrases + [Emphasised, Emphasised, Emphasised]
  }

  /** The pool of the chance spawn: every phrase, plus two more copies. */
  function ChancePool(): seq<string>
  {
    ConstantPhrases + ExtraPhrases + [Emphasised, Emphasised]
  }

  /** Every element of a pool built from the phrases and copies of the
      emphasised one is a phrase. */
  lemma PoolMembers(copies: seq<string>)
    requires forall k :: 0 <= k < |copies| ==> copies[k] == Emphasised
    ensures var p := ConstantPhrases + ExtraPhrases + copies;
      forall i :: 0 <= i < |p| ==> p[i] in ConstantPhrases || p[i] in ExtraPhrases
  {
    var c, x := ConstantPhrases, ExtraPhrases;
    var p := c + x + copies;
    assert c[0] == Emphasised;
    forall i | 0 <= i < |p| ensures p[i] in c || p[i] in x {
      if i < |c| {
        assert p[i] == c[i];
      } else if i < |c| + |x| {
        assert p[i] == x[i - |c|];
      } else {
        assert p[i] == copies[i - |c| - |x|];
      }
    }
  }

  /** The timed pool has 21 entries and the chance pool 20. */
  lemma PoolSizes()
    ensures |TimedPool()| == 21 && |ChancePool()| == 20
  {
  }

  /** The emphasised phrase fills five of the timed pool's entries and four
      of the chance pool's. */
  lemma EmphasisedWeight()
    ensures multiset(TimedPool())[Emphasised] == 5
    ensures multiset(ChancePool())[Emphasised] == 4
  {
    PhraseCounts();
    var c, x := ConstantPhrases, ExtraPhrases;
    assert multiset(TimedPool()) == multiset(c) + multiset(x) + multiset([Emphasised, Emphasised, Emphasised]);
    assert multiset(ChancePool()) == multiset(c) + multiset(x) + multiset([Emphasised, Emphasised]);
  }

  /** Each pool is the other phrases plus copies of the emphasised one. */
  lemma PoolsSplit()
    ensures TimedPool() == [Emphasised] + OtherPhrases() + Copies(Emphasised, 4)
    ensures ChancePool() == [Emphasised] + OtherPhrases() + Copies(Emphasised, 3)
  {
    var c, x := ConstantPhrases, ExtraPhrases;
    assert c == [c[0]] + c[1..];
    assert x == x[..2] + [x[2]];
    assert Copies(Emphasised, 4) == [Emphasised, Emphasised, Emphasised, Emphasised];
    assert Copies(Emphasised, 3) == [Emphasised, Emphasised, Emphasised];
  }

  /** Every phrase other than the emphasised one fills exactly one entry of
      each pool, so the timed pool weighs the emphasised phrase 5 to 1 and
      the chance pool 4 to 1 against each other phrase. */
  lemma OtherPhrasesWeight()
    ensures forall p :: p in ConstantPhrases + ExtraPhrases && p != Emphasised ==> multiset(TimedPool())[p] == 1
    ensures forall p :: p in ConstantPhrases + ExtraPhrases && p != Emphasised ==> multiset(ChancePool())[p] == 1
  {
    var c, x := ConstantPhrases, ExtraPhrases;
    PoolsSplit();
    OtherPhrasesDistinct();
    assert c[0] == Emphasised && x[2] == Emphasised && |c| == 15 && |x| == 3;
    forall p | p in c + x && p != Emphasised
      ensures multiset(TimedPool())[p] == 1 && multiset(ChancePool())[p] == 1
    {
      DropEnds(c, x, p);
      CountBetweenCopies(OtherPhrases(), Emphasised, 4, p);
      CountBetweenCopies(OtherPhrases(), Emphasised, 3, p);
    }
  }

  /** An element of c + x that is neither c's first nor x's last lies in
      the middle part. */
  lemma DropEnds(c: seq<string>, x: seq<string>, p: string)
    requires |c| >= 1 && |x| >= 1 && p in c + x && p != c[0] && p != x[|x| - 1]
    ensures p in c[1..] + x[..|x| - 1]
  {
    var i :| 0 <= i < |c + x| && (c + x)[i] == p;
    if i < |c| {
      assert p == c[1..][i - 1];
    } else {
      assert p == x[..|x| - 1][i - |c|];
    }
  }

  function Copies(e: string, n: nat): (r: seq<string>)
    ensures |r| == n && forall i :: 0 <= i < n ==> r[i] == e
  {
    if n == 0 then [] else [e] + Copies(e, n - 1)
  }

  /** Surrounding a duplicate-free sequence with copies of another element
      leaves each of its elements occurring once. */
  lemma CountBetweenCopies(o: seq<string>, e: string, n: nat, p: string)
    requires NoDuplicates(o) && p in o && p != e
    ensures multiset([e] + o + Copies(e, n))[p] == 1
  {
    var k :| 0 <= k < |o| && o[k] == p;
    CountOfDistinct(o, k);
    assert p !in Copies(e, n);
    assert multiset([e] + o + Copies(e, n)) == multiset([e]) + multiset(o) + multiset(Copies(e, n));
  }

  /** The sixteen phrases other than the emphasised one. */
  function OtherPhrases(): seq<string>
  {
    ConstantPhrases[1..] + ExtraPhrases[..2]
  }

  predicate NoDuplicates(s: seq<string>)
  {
    forall i, j :: 0 <= i < j < |s| ==> s[i] != s[j]
  }

  /** The other phrases are pairwise distinct: no two share both their
      length and their first letter. */
  lemma OtherPhrasesDistinct()
    ensures NoDuplicates(OtherPhrases())
  {
    var o := OtherPhrases();
    assert |o[0]| == 7 && o[0][0] == 'Б';
    assert |o[1]| == 8 && o[1][0] == 'С';
    assert |o[2]| == 4 && o[2][0] == 'Ж';
    assert |o[3]| == 7 && o[3][0] == 'Ж';
    assert |o[4]| == 8 && o[4][0] == 'К';
    assert |o[5]| == 7 && o[5][0] == 'М';
    assert |o[6]| == 7 && o[6][0] == 'Л';
    assert |o[7]| == 6 && o[7][0] == 'З';
    assert |o[8]| == 7 && o[8][0] == 'Д';
    assert |o[9]| == 7 && o[9][0] == 'К';
    assert |o[10]| == 9 && o[10][0] == 'П';
    assert |o[11]| == 5 && o[11][0] == 'З';
    assert |o[12]| == 6 && o[12][0] == 'С';
    assert |o[13]| == 22 && o[13][0] == 'С';
    assert |o[14]| == 16 && o[14][0] == 'Д';
    assert |o[15]| == 12 && o[15][0] == 'Д';
  }

  /** An element of a sequence without duplicates occurs in it once. */
  lemma {:induction false} CountOfDistinct(s: seq<string>, k: nat)
    requires NoDuplicates(s) && k < |s|
    ensures multiset(s)[s[k]] == 1
    decreases |s|
  {
    assert s == [s[0]] + s[1..];
    var tail := s[1..];
    assert NoDuplicates(tail) by {
      forall i, j | 0 <= i < j < |tail| ensures tail[i] != tail[j] {
        assert tail[i] == s[i + 1] && tail[j] == s[j + 1];
      }
    }
    if k == 0 {
      assert s[0] !in tail by {
        forall j | 0 <= j < |tail| ensures tail[j] != s[0] {
          assert tail[j] == s[j + 1];
        }
      }
    } else {
      assert s[k] == tail[k - 1];
      CountOfDistinct(tail, k - 1);
    }
  }

  /** Every entry of either pool is a constant or an extra phrase. */
  lemma PoolsHoldOnlyPhrases()
    ensures forall i :: 0 <= i < |TimedPool()| ==> TimedPool()[i] in ConstantPhrases || TimedPool()[i] in ExtraPhrases
    ensures forall i :: 0 <= i < |ChancePool()| ==> ChancePool()[i] in ConstantPhrases || ChancePool()[i] in ExtraPhrases
  {
    PoolMembers([Emphasised, Emphasised, Emphasised]);
    PoolMembers([Emphasised, Emphasised]);
  }

  /** Only the first constant phrase is the emphasised one. */
  lemma OtherConstantsDiffer()
    ensures forall i :: 1 <= i < |ConstantPhrases| ==> ConstantPhrases[i] != Emphasised
  {
    var c := ConstantPhrases;
    assert Emphasised[0] == 'П' && Emphasised[2] == 'о';
    assert c[1][0] == 'Б' && c[2][0] == 'С' && c[3][0] == 'Ж' && c[4][0] == 'Ж';
    assert c[5][0] == 'К' && c[6][0] == 'М' && c[7][0] == 'Л' && c[8][0] == 'З';
    assert c[9][0] == 'Д' && c[10][0] == 'К' && c[11][2] == 'и' && c[12][0] == 'З';
    assert c[13][0] == 'С' && c[14][0] == 'С';
  }

  lemma PhraseCounts()
    ensures multiset(ConstantPhrases)[Emphasised] == 1
    ensures multiset(ExtraPhrases)[Emphasised] == 1
  {
    var c := ConstantPhrases;
    OtherConstantsDiffer();
    assert c == [c[0]] + c[1..];
    assert Emphasised !in c[1..];
    var e := ExtraPhrases;
    assert e == [e[0], e[1]] + [e[2]];
    assert e[0][0] == 'Д' && e[1][0] == 'Д';
    assert Emphasised !in [e[0], e[1]];
  }

  /** The element a draw selects: the draw scaled to the pool and rounded
      down. */
  function Pick(pool: seq<string>, roll: Unit): (w: string)
    requires |pool| > 0
    ensures w in pool
  {
    ScaledIndexInRange(roll, |pool|);
    pool[(roll * |pool| as real).Floor]
  }

  lemma ScaledIndexInRange(roll: Unit, n: nat)
    requires n > 0
    ensures 0 <= (roll * n as real).Floor < n
  {
    assert 0.0 <= roll * n as real;
    assert roll * n as real < n as real by {
      assert (1.0 - roll) * n as real > 0.0;
    }
  }

  /** Either spawn picks a phrase from the constant or the extra phrases. */
  lemma PicksArePhrases(roll: Unit)
    ensures Pick(TimedPool(), roll) in ConstantPhrases || Pick(TimedPool(), roll) in ExtraPhrases
    ensures Pick(ChancePool(), roll) in ConstantPhrases || Pick(ChancePool(), roll) in ExtraPhrases
  {
    PoolSizes();
    PoolsHoldOnlyPhrases();
    ScaledIndexInRange(roll, |TimedPool()|);
    ScaledIndexInRange(roll, |ChancePool()|);
  }

  /** The timer fires once more than its random interval, between 0.2 and
      0.5 seconds, has passed since the last timed spawn. */
  predicate TimerDue(time: real, lastTextTime: real, interval: Unit)
  {
    time - lastTextTime > 0.2 + interval * 0.3
  }

  function TimedSpawn(s: seq<Banner>, due: bool, r: FrameRolls): seq<Banner>
  {
    if due then Admit(s, Pick(TimedPool(), r.pick), r.first) else s
  }

  /** The chance spawn: tried with probability 8% while fewer than five
      banners are live. */
  function ChanceSpawn(s: seq<Banner>, r: FrameRolls): seq<Banner>
  {
    if r.chance < 0.08 && |s| < MaxBanners then Admit(s, Pick(ChancePool(), r.pickExtra), r.second) else s
  }

  /** The live-count guard of the chance spawn adds nothing to admission's
      own cap. */
  lemma ChanceGuardMatchesCap(s: seq<Banner>, r: FrameRolls)
    ensures ChanceSpawn(s, r) == if r.chance < 0.08 then Admit(s, Pick(ChancePool(), r.pickExtra), r.second) else s
  {
  }

  /** The banners after one frame: both spawns, then the retirement pass. */
  function FrameTexts(s: seq<Banner>, due: bool, r: FrameRolls): seq<Banner>
  {
    Survivors(ChanceSpawn(TimedSpawn(s, due, r), r))
  }

  /** A due frame over an empty stage (the first frame after construction)
      leaves the phrase the timed spawn picked on stage, moved and aged. */
  lemma FirstDueFrameShowsPick(r: FrameRolls)
    ensures |TimedPool()| == 21
    ensures exists c :: c in FrameTexts([], true, r) && c.text == Pick(TimedPool(), r.pick) && c.life == 1
  {
    PoolSizes();
    var w := Pick(TimedPool(), r.pick);
    var b := NewBanner(w, r.first);
    assert TimedSpawn([], true, r) == [b];
    var c := ChanceSpawn([b], r);
    assert c[0] == b;
    NewBannerSurvivesFirstFrame(w, r.first);
    SurvivorsExactly(c);
    assert Advance(b) in FrameTexts([], true, r);
  }

  lemma FrameKeepsInvariant(s: seq<Banner>, due: bool, r: FrameRolls)
    requires PoolInvariant(s)
    ensures PoolInvariant(FrameTexts(s, due, r))
  {
    var t := TimedSpawn(s, due, r);
    if due { AdmitKeepsInvariant(s, Pick(TimedPool(), r.pick), r.first); }
    var c := ChanceSpawn(t, r);
    if r.chance < 0.08 && |t| < MaxBanners { AdmitKeepsInvariant(t, Pick(ChancePool(), r.pickExtra), r.second); }
    SurvivorsKeepInvariant(c);
  }
}
