/** The animated background object: its pool of live phrase banners, the
    time of the last timed spawn and the page it believes is on screen.

    The frame loop, the interval timer and the random number generator are
    replaced by explicit calls: `Animate` is one frame, with the frame time
    and the frame's random draws as parameters, and `PollPage` is one tick of
    the page watcher, with the hidden flags of the page elements as
    parameters. */
module Background {

  import opened Banners
  import PageScan

  class FloatingHeartsBackground {
    /** The live banners, oldest first. */
    var texts: seq<Banner>
    /** Time, in seconds, of the last timed spawn. */
    var lastTextTime: real
    var currentPage: int

    ghost predicate Valid()
      reads this
    {
      PoolInvariant(texts)
    }

    /** Construction ends with `init`, which runs the first frame before
        returning: `time` and `r` are that frame's time and draws. */
    constructor (time: real, r: FrameRolls)
      ensures Valid()
      ensures currentPage == 1
      ensures lastTextTime == if TimerDue(time, 0.0, r.interval) then time else 0.0
      ensures texts == FrameTexts([], TimerDue(time, 0.0, r.interval), r)
    {
      texts := [];
      lastTextTime := 0.0;
      currentPage := 1;
      new;
      Animate(time, r);
    }

    /** Adds a banner with `text` unless five are live or one of them shows
        the same text. */
    method CreateFloatingText(text: string, r: BannerRolls)
      requires Valid()
      modifies this`texts
      ensures Valid()
      ensures texts == Admit(old(texts), text, r)
    {
      if |texts| >= MaxBanners {
        return;
      }
      var textAlreadyActive := HasText(texts, text);
      if textAlreadyActive {
        return;
      }
      var b := NewBanner(text, r);
      AdmitKeepsInvariant(texts, text, r);
      texts := texts + [b];
    }

    /** Removes every banner and rewinds the spawn timer. */
    method ClearOldTexts()
      modifies this`texts, this`lastTextTime
      ensures Valid()
      ensures texts == [] && lastTextTime == 0.0
    {
      texts := [];
      lastTextTime := 0.0;
    }

    /** The retirement pass: walks the banners from the last to the first,
        moves and ages each one, and splices out those off stage or over
        age. */
    method RetireBanners()
      requires Valid()
      modifies this`texts
      ensures Valid()
      ensures texts == Survivors(old(texts))
    {
      ghost var before := texts;
      var i := |texts|;
      while i > 0
        invariant 0 <= i <= |before|
        invariant texts == before[..i] + Survivors(before[i..])
        decreases i
      {
        SurvivorsUnfold(before, i - 1);
        PrefixSplit(before, i - 1);
        assert texts[..i - 1] == before[..i - 1];
        assert texts[i..] == Survivors(before[i..]);
        var textMesh := texts[i - 1];
        assert textMesh == before[i - 1];
        var moved := Advance(textMesh);
        if OffStage(moved) || OverAge(moved) {
          texts := texts[..i - 1] + texts[i..];
        } else {
          texts := texts[..i - 1] + [moved] + texts[i..];
        }
        i := i - 1;
      }
      assert before[0..] == before;
      SurvivorsKeepInvariant(before);
    }

    /** One animation frame: the timed spawn, the chance spawn, then the
        retirement pass.  The timed spawn resets the timer even when the
        phrase it picked was refused. */
    method Animate(time: real, r: FrameRolls)
      requires Valid()
      modifies this`texts, this`lastTextTime
      ensures Valid()
      ensures lastTextTime == if TimerDue(time, old(lastTextTime), r.interval) then time else old(lastTextTime)
      ensures texts == FrameTexts(old(texts), TimerDue(time, old(lastTextTime), r.interval), r)
    {
      if time - lastTextTime > 0.2 + r.interval * 0.3 {
        PoolSizes();
        var phrasePool := TimedPool();
        var randomPhrase := Pick(phrasePool, r.pick);
        CreateFloatingText(randomPhrase, r.first);
        lastTextTime := time;
      }
      if r.chance < 0.08 && |texts| < MaxBanners {
        PoolSizes();
        var phrasePool := ChancePool();
        var randomPhrase := Pick(phrasePool, r.pickExtra);
        CreateFloatingText(randomPhrase, r.second);
      }
      RetireBanners();
    }

    /** One tick of the page watcher; reports whether the page changed. */
    method PollPage(pagesHidden: seq<bool>, bookPagesHidden: seq<bool>) returns (changed: bool)
      modifies this`currentPage
      ensures currentPage == PageScan.DetectedPage(pagesHidden, bookPagesHidden)
      ensures changed <==> currentPage != old(currentPage)
    {
      var newCurrentPage := PageScan.DetectPage(pagesHidden, bookPagesHidden);
      changed := newCurrentPage != currentPage;
      if changed {
        currentPage := newCurrentPage;
      }
    }
  }

  lemma SurvivorsUnfold(s: seq<Banner>, k: nat)
    requires k < |s|
    ensures Survivors(s[k..]) == (if Retires(s[k]) then [] else [Advance(s[k])]) + Survivors(s[k + 1..])
  {
    assert s[k..][1..] == s[k + 1..];
  }

  lemma PrefixSplit(s: seq<Banner>, k: nat)
    requires k < |s|
    ensures s[..k + 1] == s[..k] + [s[k]]
  {
  }
}
