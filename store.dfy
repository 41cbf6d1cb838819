/** The in-memory store the window works on: the reconciled characters, the index
    of the selected character and of its selected streak, selection by name, and
    recording a win or a loss (the `record` closure), with the rule that a
    character's best "4k" streak is also a best "3k" streak. */
module StreakStore {
  import opened Wrappers
  import opened Reconcile

  const FOUR_K: string := "4k"
  const THREE_K: string := "3k"

  /** `i32::max`. */
  function Max(a: int, b: int): int {
    if a >= b then a else b
  }

  /** The names of the streaks, in order. */
  function StreakNames(streaks: seq<StreakCategory>): (r: seq<string>)
    ensures |r| == |streaks| && forall i :: 0 <= i < |streaks| ==> r[i] == streaks[i].name
  {
    seq(|streaks|, i requires 0 <= i < |streaks| => streaks[i].name)
  }

  /** The selected counter after one outcome: a win extends the current streak and
      lifts the best to it, a loss ends the current streak. */
  function Bump(s: StreakCategory, isWin: bool): (r: StreakCategory)
    ensures r.name == s.name && r.best >= s.best
    ensures isWin ==> r.current == s.current + 1 && r.best >= r.current
    ensures isWin && s.current < s.best ==> r.best == s.best
    ensures isWin ==> r.best == s.best || r.best == r.current
    ensures !isWin ==> r.current == 0 && r.best == s.best
    ensures 0 <= s.current <= s.best ==> 0 <= r.current <= r.best
  {
    if isWin then s.(current := s.current + 1, best := Max(s.best, s.current + 1))
    else s.(current := 0)
  }

  /** Streak sequences with the same names position by position have the same names. */
  lemma SameNames(a: seq<StreakCategory>, b: seq<StreakCategory>)
    requires |a| == |b| && forall j :: 0 <= j < |a| ==> a[j].name == b[j].name
    ensures StreakNames(a) == StreakNames(b)
  {
    assert forall j :: 0 <= j < |a| ==> StreakNames(a)[j] == StreakNames(b)[j];
  }

  /** The streaks with the selected one bumped; unchanged when the index is out of
      range (`get_mut` returns None). */
  function BumpAt(streaks: seq<StreakCategory>, sIdx: nat, isWin: bool): (r: seq<StreakCategory>)
    ensures |r| == |streaks| && StreakNames(r) == StreakNames(streaks)
    ensures forall j :: 0 <= j < |r| && j != sIdx ==> r[j] == streaks[j]
    ensures sIdx < |streaks| ==> r[sIdx] == Bump(streaks[sIdx], isWin)
  {
    if sIdx < |streaks| then
      SameNames(streaks[sIdx := Bump(streaks[sIdx], isWin)], streaks);
      streaks[sIdx := Bump(streaks[sIdx], isWin)]
    else streaks
  }

  /** The "4k" rule: when the streaks hold a "4k" and a "3k" category, the best of
      the first "3k" is raised to the best of the first "4k". It touches nothing
      else, and only ever raises that best. */
  function PropagateFourK(streaks: seq<StreakCategory>): (r: seq<StreakCategory>)
    ensures |r| == |streaks| && StreakNames(r) == StreakNames(streaks)
    ensures forall j :: 0 <= j < |r| ==>
              r[j].name == streaks[j].name && r[j].current == streaks[j].current && r[j].best >= streaks[j].best
    ensures forall j ::
              && 0 <= j < |r|
              && (FOUR_K !in StreakNames(streaks) || Position(StreakNames(streaks), THREE_K) != Some(j))
              ==> r[j] == streaks[j]
    ensures forall f, t ::
              Position(StreakNames(streaks), FOUR_K) == Some(f) && Position(StreakNames(streaks), THREE_K) == Some(t) ==>
              r[t].best >= streaks[f].best && (r[t].best == streaks[t].best || r[t].best == streaks[f].best)
  {
    match Position(StreakNames(streaks), FOUR_K)
    case None => streaks
    case Some(f) =>
      match Position(StreakNames(streaks), THREE_K)
      case None => streaks
      case Some(t) =>
        var r := streaks[t := streaks[t].(best := Max(streaks[t].best, streaks[f].best))];
        SameNames(r, streaks);
        r
  }

  /** The character after recording an outcome while streak `sIdx` is selected: the
      selected streak (if the index is in range) is bumped, and after a win the "4k"
      rule runs for every character that is not the survivor. */
  function Recorded(c: Character, sIdx: nat, isWin: bool): (r: Character)
    ensures r.name == c.name && r.imagePath == c.imagePath
    ensures |r.streaks| == |c.streaks| && StreakNames(r.streaks) == StreakNames(c.streaks)
  {
    var bumped := BumpAt(c.streaks, sIdx, isWin);
    c.(streaks := if isWin && !IsSurvivor(c.name) then PropagateFourK(bumped) else bumped)
  }

  /** A streak is consistent when 0 <= current <= best. */
  predicate Consistent(s: StreakCategory) {
    0 <= s.current <= s.best
  }

  /** The counters shown after recording: those of the selected streak, or (0, 0)
      when the index is out of range. */
  function Shown(c: Character, sIdx: nat): (r: (int, int))
    ensures sIdx >= |c.streaks| ==> r == (0, 0)
    ensures sIdx < |c.streaks| ==> r == (c.streaks[sIdx].current, c.streaks[sIdx].best)
    ensures sIdx < |c.streaks| && Consistent(c.streaks[sIdx]) ==> 0 <= r.0 <= r.1
  {
    if sIdx < |c.streaks| then (c.streaks[sIdx].current, c.streaks[sIdx].best) else (0, 0)
  }

  /** The streak a win's "4k" rule may raise: the first "3k" of a character that is not
      the survivor and also has a "4k"; None when the rule does nothing. */
  function RaisedIndex(c: Character): Option<nat> {
    if IsSurvivor(c.name) || FOUR_K !in StreakNames(c.streaks) then None
    else Position(StreakNames(c.streaks), THREE_K)
  }

  /** A loss zeroes the selected current streak, keeps its best and changes nothing
      else; with the index out of range it changes nothing at all. */
  lemma RecordedLoss(c: Character, sIdx: nat)
    ensures var r := Recorded(c, sIdx, false);
            && |r.streaks| == |c.streaks|
            && (sIdx < |c.streaks| ==> r.streaks[sIdx].current == 0 && r.streaks[sIdx].best == c.streaks[sIdx].best)
            && (forall j :: 0 <= j < |c.streaks| && j != sIdx ==> r.streaks[j] == c.streaks[j])
            && (sIdx >= |c.streaks| ==> r == c)
  {
  }

  /** A win adds one to the selected current streak and lifts its best to at least
      the new current streak; the best is exactly max(best, current + 1) unless the
      "4k" rule raises this very streak. */
  lemma RecordedWin(c: Character, sIdx: nat)
    requires sIdx < |c.streaks|
    ensures var r := Recorded(c, sIdx, true);
            var s := c.streaks[sIdx];
            && r.streaks[sIdx].current == s.current + 1
            && r.streaks[sIdx].best >= Max(s.best, s.current + 1)
            && (RaisedIndex(c) != Some(sIdx) ==> r.streaks[sIdx].best == Max(s.best, s.current + 1))
  {
  }

  /** After a win, every streak other than the selected one and the one the "4k"
      rule raises is unchanged. */
  lemma RecordedWinFrame(c: Character, sIdx: nat, j: nat)
    requires j < |c.streaks| && j != sIdx && RaisedIndex(c) != Some(j)
    ensures Recorded(c, sIdx, true).streaks[j] == c.streaks[j]
  {
  }

  /** After a win on a character that is not the survivor and has both a "4k" and a
      "3k" streak, the first "3k" best is at least the first "4k" best: it is the larger
      of the two. The rule applies even when the selected index is out of range. */
  lemma RecordedFourKFloor(c: Character, sIdx: nat)
    requires !IsSurvivor(c.name)
    requires FOUR_K in StreakNames(c.streaks) && THREE_K in StreakNames(c.streaks)
    ensures var r := Recorded(c, sIdx, true);
            var f := Position(StreakNames(c.streaks), FOUR_K).value;
            var t := Position(StreakNames(c.streaks), THREE_K).value;
            var bumped := BumpAt(c.streaks, sIdx, true);
            && r.streaks[t].best == Max(bumped[t].best, bumped[f].best)
            && r.streaks[t].best >= r.streaks[f].best
  {
  }

  /** The survivor's streaks never take part in the "4k" rule: a win only bumps the
      selected streak. */
  lemma RecordedSurvivor(c: Character, sIdx: nat)
    requires IsSurvivor(c.name)
    ensures forall j :: 0 <= j < |c.streaks| && j != sIdx ==> Recorded(c, sIdx, true).streaks[j] == c.streaks[j]
  {
  }

  /** No best ever decreases. */
  lemma RecordedBestMonotone(c: Character, sIdx: nat, isWin: bool)
    ensures forall j :: 0 <= j < |c.streaks| ==> Recorded(c, sIdx, isWin).streaks[j].best >= c.streaks[j].best
  {
  }

  /** Recording keeps every consistent streak consistent. */
  lemma RecordedConsistent(c: Character, sIdx: nat, isWin: bool)
    requires forall j :: 0 <= j < |c.streaks| ==> Consistent(c.streaks[j])
    ensures forall j :: 0 <= j < |Recorded(c, sIdx, isWin).streaks| ==> Consistent(Recorded(c, sIdx, isWin).streaks[j])
  {
  }

  /** The character after a run of outcomes on the same selected streak. */
  function RecordedAll(c: Character, sIdx: nat, outcomes: seq<bool>): Character
    decreases |outcomes|
  {
    if outcomes == [] then c else RecordedAll(Recorded(c, sIdx, outcomes[0]), sIdx, outcomes[1..])
  }

  /** Over any run of outcomes, no best decreases and consistent streaks stay
      consistent. */
  lemma {:induction false} RecordedAllMonotone(c: Character, sIdx: nat, outcomes: seq<bool>)
    ensures |RecordedAll(c, sIdx, outcomes).streaks| == |c.streaks|
    ensures forall j :: 0 <= j < |c.streaks| ==> RecordedAll(c, sIdx, outcomes).streaks[j].best >= c.streaks[j].best
    ensures (forall j :: 0 <= j < |c.streaks| ==> Consistent(c.streaks[j])) ==>
              forall j :: 0 <= j < |c.streaks| ==> Consistent(RecordedAll(c, sIdx, outcomes).streaks[j])
    decreases |outcomes|
  {
    if outcomes != [] {
      var next := Recorded(c, sIdx, outcomes[0]);
      RecordedBestMonotone(c, sIdx, outcomes[0]);
      if forall j :: 0 <= j < |c.streaks| ==> Consistent(c.streaks[j]) {
        RecordedConsistent(c, sIdx, outcomes[0]);
      }
      RecordedAllMonotone(next, sIdx, outcomes[1..]);
    }
  }

  /** The counter examples: current 5, best 7 and a loss give 0 and 7; current 2,
      best 2 and a win give 3 and 3; current 0, best 5 and a win give 1 and 5. */
  lemma BumpExamples()
    ensures Bump(StreakCategory("Perkless 4k", 5, 7), false) == StreakCategory("Perkless 4k", 0, 7)
    ensures Bump(StreakCategory("Perkless 4k", 2, 2), true) == StreakCategory("Perkless 4k", 3, 3)
    ensures Bump(StreakCategory("Perkless 4k", 0, 5), true) == StreakCategory("Perkless 4k", 1, 5)
  {
  }

  /** `streak_idx.min(len.saturating_sub(1))`: the streak index shown for a
      character with `len` streaks. */
  function ClampIndex(idx: nat, len: nat): (i: nat)
    ensures i <= idx
    ensures len > 0 ==> i < len
    ensures idx < len ==> i == idx
    ensures len > 0 && idx >= len ==> i == len - 1
    ensures len == 0 ==> i == 0
  {
    var last := if len > 0 then len - 1 else 0;
    if idx <= last then idx else last
  }

  /** The characters and the selection. Rust shares them between the window's
      callbacks through `Rc<RefCell<..>>`; here one object owns them. */
  class Store {
    var characters: seq<Character>
    var charIdx: nat
    var streakIdx: nat

    /** The selected character index is in range whenever there is a character. */
    ghost predicate Valid()
      reads this
    {
      if characters == [] then charIdx == 0 else charIdx < |characters|
    }

    /** The state after `load_data`: the first character and its first streak selected. */
    constructor (characters: seq<Character>)
      ensures Valid()
      ensures this.characters == characters && charIdx == 0 && streakIdx == 0
    {
      this.characters := characters;
      charIdx := 0;
      streakIdx := 0;
    }

    /** `on_killer_selected`: selects the first character with that exact name and
        its first streak; an unknown name changes nothing. */
    method SelectCharacter(name: string) returns (found: bool)
      requires Valid()
      modifies this`charIdx, this`streakIdx
      ensures Valid()
      ensures found <==> HasName(characters, name)
      ensures found ==> && charIdx < |characters| && characters[charIdx].name == name
                        && (forall j :: 0 <= j < charIdx ==> characters[j].name != name)
                        && streakIdx == 0
      ensures !found ==> charIdx == old(charIdx) && streakIdx == old(streakIdx)
    {
      var names := Names(characters);
      match Position(names, name)
      case Some(idx) =>
        assert forall j :: 0 <= j < idx ==> names[..idx][j] == names[j];
        charIdx := idx;
        streakIdx := 0;
        found := true;
      case None =>
        found := false;
        assert forall k :: 0 <= k < |characters| ==> names[k] == characters[k].name;
    }

    /** `on_streak_category_selected`: selects the first streak with that exact name
        among the selected character's streaks; an unknown name changes nothing. */
    method SelectCategory(name: string) returns (found: bool)
      requires Valid() && characters != []
      modifies this`streakIdx
      ensures Valid()
      ensures found <==> HasStreak(characters[charIdx].streaks, name)
      ensures found ==> && streakIdx < |characters[charIdx].streaks|
                        && characters[charIdx].streaks[streakIdx].name == name
                        && (forall j :: 0 <= j < streakIdx ==> characters[charIdx].streaks[j].name != name)
      ensures !found ==> streakIdx == old(streakIdx)
    {
      var names := StreakNames(characters[charIdx].streaks);
      match Position(names, name)
      case Some(pos) =>
        assert forall j :: 0 <= j < pos ==> names[..pos][j] == names[j];
        streakIdx := pos;
        found := true;
      case None =>
        found := false;
    }

    /** `record`: applies a win or a loss to the selected streak, runs the "4k" rule
        after a win, and returns the selected streak's counters for display. */
    method Record(isWin: bool) returns (current: int, best: int)
      requires Valid() && characters != []
      modifies this`characters
      ensures Valid()
      ensures characters == old(characters)[charIdx := Recorded(old(characters)[charIdx], streakIdx, isWin)]
      ensures (current, best) == Shown(characters[charIdx], streakIdx)
    {
      var character := characters[charIdx];
      var streaks := character.streaks;
      if streakIdx < |streaks| {
        var cat := streaks[streakIdx];
        if isWin {
          cat := cat.(current := cat.current + 1);
          cat := cat.(best := Max(cat.best, cat.current));
        } else {
          cat := cat.(current := 0);
        }
        streaks := streaks[streakIdx := cat];
      }
      assert streaks == BumpAt(character.streaks, streakIdx, isWin);
      if isWin && !IsSurvivor(character.name) {
        ghost var bumped := streaks;
        var fourK := Position(StreakNames(streaks), FOUR_K);
        if fourK.Some? {
          var bestFourK := streaks[fourK.value].best;
          var threeK := Position(StreakNames(streaks), THREE_K);
          if threeK.Some? {
            var t := threeK.value;
            streaks := streaks[t := streaks[t].(best := Max(streaks[t].best, bestFourK))];
          }
        }
        assert streaks == PropagateFourK(bumped);
      }
      characters := characters[charIdx := character.(streaks := streaks)];
      if streakIdx < |streaks| {
        current, best := streaks[streakIdx].current, streaks[streakIdx].best;
      } else {
        current, best := 0, 0;
      }
    }

    /** The index of the streak the window shows for the selected character. */
    function DisplayIndex(): (i: nat)
      reads this
      requires Valid() && characters != []
      ensures i <= streakIdx
      ensures characters[charIdx].streaks != [] ==> i < |characters[charIdx].streaks|
      ensures streakIdx < |characters[charIdx].streaks| ==> i == streakIdx
    {
      ClampIndex(streakIdx, |characters[charIdx].streaks|)
    }
  }
}
