/** The reconciliation engine (`ensure_categories` and `load_data`): characters
    saved earlier, characters discovered as images in the media folder and the
    configured categories are merged into one list in which every character carries
    every category of its group and the characters are sorted by name. */
module Reconcile {
  import opened Wrappers
  import opened Text
  import opened NameFormat
  import opened CategorySource

  /** A named counter pair: the running streak and the best streak reached. */
  datatype StreakCategory = StreakCategory(name: string, current: int, best: int)

  /** A tracked character: its name, its image and its streak categories in
      insertion order. */
  datatype Character = Character(name: string, imagePath: string, streaks: seq<StreakCategory>)

  /** An entry of the media folder: the file stem, the extension (None when the
      file has none) and the path that becomes the character's image path. */
  datatype MediaEntry = MediaEntry(stem: string, extension: Option<string>, path: string)

  /** The name that selects the survivor category group, compared ignoring ASCII case. */
  const SURVIVOR: string := "survivor"

  predicate IsSurvivor(name: string) {
    EqualsIgnoreAsciiCase(name, SURVIVOR)
  }

  /** Only `.png` files, extension compared ignoring ASCII case, are characters. */
  predicate IsPng(e: MediaEntry) {
    e.extension.Some? && EqualsIgnoreAsciiCase(e.extension.value, "png")
  }

  /** The categories of the group a name belongs to. */
  function GroupCategories(name: string, killerCats: seq<string>, survivorCats: seq<string>): seq<string> {
    if IsSurvivor(name) then survivorCats else killerCats
  }

  /** Names that differ only in ASCII case select the same category group. */
  lemma GroupCategoriesIgnoresCase(a: string, b: string, killerCats: seq<string>, survivorCats: seq<string>)
    requires EqualsIgnoreAsciiCase(a, b)
    ensures GroupCategories(a, killerCats, survivorCats) == GroupCategories(b, killerCats, survivorCats)
  {
    EqualsIgnoreAsciiCaseEquivalence(a, b, SURVIVOR);
    EqualsIgnoreAsciiCaseEquivalence(b, a, SURVIVOR);
  }

  /** "Survivor" and "SURVIVOR" select the survivor group; "Nurse" and "Survivors"
      the killer group. */
  lemma GroupCategoriesExamples(killerCats: seq<string>, survivorCats: seq<string>)
    ensures GroupCategories("Survivor", killerCats, survivorCats) == survivorCats
    ensures GroupCategories("SURVIVOR", killerCats, survivorCats) == survivorCats
    ensures !IsSurvivor("Nurse") && GroupCategories("Nurse", killerCats, survivorCats) == killerCats
    ensures !IsSurvivor("Survivors") && GroupCategories("Survivors", killerCats, survivorCats) == killerCats
  {
  }

  /** Entries with the extension "png" in any letter case are characters; those
      with another extension or none are not. */
  lemma IsPngExamples(stem: string, path: string)
    ensures IsPng(MediaEntry(stem, Some("png"), path)) && IsPng(MediaEntry(stem, Some("PNG"), path))
    ensures !IsPng(MediaEntry(stem, Some("jpg"), path)) && !IsPng(MediaEntry(stem, None, path))
  {
    EqualsIgnoreAsciiCaseExamples();
    EqualsIgnoreAsciiCaseEquivalence("png", "png", "png");
  }

  predicate HasStreak(streaks: seq<StreakCategory>, n: string) {
    exists k :: 0 <= k < |streaks| && streaks[k].name == n
  }

  predicate HasAll(c: Character, cats: seq<string>) {
    forall n :: n in cats ==> HasStreak(c.streaks, n)
  }

  predicate HasName(cs: seq<Character>, n: string) {
    exists k :: 0 <= k < |cs| && cs[k].name == n
  }

  /** The names of the characters, in list order. */
  function Names(cs: seq<Character>): (r: seq<string>)
    ensures |r| == |cs| && forall i :: 0 <= i < |cs| ==> r[i] == cs[i].name
  {
    if cs == [] then [] else [cs[0].name] + Names(cs[1..])
  }

  predicate UniqueNames(cs: seq<Character>) {
    forall i, j :: 0 <= i < j < |cs| ==> cs[i].name != cs[j].name
  }

  /** One zeroed streak per category, in category order. */
  function ZeroedStreaks(cats: seq<string>): seq<StreakCategory> {
    seq(|cats|, i requires 0 <= i < |cats| => StreakCategory(cats[i], 0, 0))
  }

  /** The position of the first occurrence of n in cats; |cats| when absent. */
  function Rank(cats: seq<string>, n: string): nat {
    match Position(cats, n)
    case Some(i) => i
    case None => |cats|
  }

  /** c2 is c with categories appended so that every category of cats is present:
      same name and image, c's streaks an unchanged prefix, and each appended streak
      zeroed, named after a category, new to the streaks before it, and appended in
      the order the categories are listed. */
  ghost predicate Extends(c: Character, c2: Character, cats: seq<string>) {
    && c2.name == c.name
    && c2.imagePath == c.imagePath
    && c.streaks <= c2.streaks
    && HasAll(c2, cats)
    && (forall k :: |c.streaks| <= k < |c2.streaks| ==>
          && c2.streaks[k].current == 0
          && c2.streaks[k].best == 0
          && c2.streaks[k].name in cats
          && !HasStreak(c2.streaks[..k], c2.streaks[k].name))
    && (forall j, k :: |c.streaks| <= j < k < |c2.streaks| ==>
          Rank(cats, c2.streaks[j].name) < Rank(cats, c2.streaks[k].name))
  }

  /** The state of `ensure_categories` after the first i categories: the original
      streaks are a prefix, each of those categories is present, and every appended
      streak is zeroed, new, named after one of them, and in category order. */
  ghost predicate ExtendedUpTo(c: Character, streaks: seq<StreakCategory>, cats: seq<string>, i: nat)
    requires i <= |cats|
  {
    && c.streaks <= streaks
    && (forall n :: n in cats[..i] ==> HasStreak(streaks, n))
    && (forall k :: |c.streaks| <= k < |streaks| ==>
          && streaks[k].current == 0 && streaks[k].best == 0
          && streaks[k].name in cats[..i]
          && Rank(cats, streaks[k].name) < i
          && !HasStreak(streaks[..k], streaks[k].name))
    && (forall j, k :: |c.streaks| <= j < k < |streaks| ==>
          Rank(cats, streaks[j].name) < Rank(cats, streaks[k].name))
  }

  /** Appending a missing category keeps the loop state, and that category was
      missing from the original streaks too. */
  lemma ExtendedUpToAppend(c: Character, streaks: seq<StreakCategory>, cats: seq<string>, i: nat)
    requires i < |cats| && ExtendedUpTo(c, streaks, cats, i) && !HasStreak(streaks, cats[i])
    ensures ExtendedUpTo(c, streaks + [StreakCategory(cats[i], 0, 0)], cats, i + 1)
    ensures !HasStreak(c.streaks, cats[i])
  {
    var s2 := streaks + [StreakCategory(cats[i], 0, 0)];
    assert cats[..i + 1] == cats[..i] + [cats[i]];
    assert cats[i] !in cats[..i];
    assert Rank(cats, cats[i]) == i;
    assert s2[..|streaks|] == streaks;
    forall n | n in cats[..i + 1]
      ensures HasStreak(s2, n)
    {
      if n == cats[i] {
        assert s2[|streaks|].name == n;
      } else {
        var k :| 0 <= k < |streaks| && streaks[k].name == n;
        assert s2[k] == streaks[k];
      }
    }
    forall k | |c.streaks| <= k < |streaks|
      ensures !HasStreak(s2[..k], s2[k].name)
    {
      assert s2[..k] == streaks[..k];
    }
    forall k | 0 <= k < |c.streaks|
      ensures c.streaks[k].name != cats[i]
    {
      assert streaks[k] == c.streaks[k];
    }
  }

  /** Skipping a present category keeps the loop state; when nothing was appended
      yet, the category was present in the original streaks. */
  lemma ExtendedUpToSkip(c: Character, streaks: seq<StreakCategory>, cats: seq<string>, i: nat)
    requires i < |cats| && ExtendedUpTo(c, streaks, cats, i) && HasStreak(streaks, cats[i])
    ensures ExtendedUpTo(c, streaks, cats, i + 1)
    ensures |streaks| == |c.streaks| ==> HasStreak(c.streaks, cats[i])
  {
    assert cats[..i + 1] == cats[..i] + [cats[i]];
    assert |streaks| == |c.streaks| ==> streaks == c.streaks;
  }

  /** `ensure_categories`: appends every missing category, zeroed, and reports
      whether anything was appended. */
  method EnsureCategories(c: Character, cats: seq<string>) returns (c2: Character, changed: bool)
    ensures Extends(c, c2, cats)
    ensures changed <==> exists n :: n in cats && !HasStreak(c.streaks, n)
    ensures changed <==> |c2.streaks| > |c.streaks|
    ensures !changed ==> c2 == c
  {
    var streaks := c.streaks;
    changed := false;
    for i := 0 to |cats|
      invariant ExtendedUpTo(c, streaks, cats, i)
      invariant changed <==> |streaks| > |c.streaks|
      invariant changed <==> exists n :: n in cats[..i] && !HasStreak(c.streaks, n)
    {
      assert cats[..i + 1] == cats[..i] + [cats[i]];
      if !HasStreak(streaks, cats[i]) {
        ExtendedUpToAppend(c, streaks, cats, i);
        streaks := streaks + [StreakCategory(cats[i], 0, 0)];
        changed := true;
      } else {
        ExtendedUpToSkip(c, streaks, cats, i);
      }
    }
    assert cats[..|cats|] == cats;
    c2 := c.(streaks := streaks);
    assert |streaks| == |c.streaks| ==> streaks == c.streaks;
  }

  /** A streak appended by an extension is named after a category the original
      streaks lacked. */
  lemma ExtendsAppendsMissing(c: Character, c2: Character, cats: seq<string>, k: nat)
    requires Extends(c, c2, cats) && |c.streaks| <= k < |c2.streaks|
    ensures c2.streaks[k].name in cats && !HasStreak(c.streaks, c2.streaks[k].name)
  {
    assert forall j :: 0 <= j < |c.streaks| ==> c2.streaks[..k][j] == c.streaks[j];
  }

  /** A character that already has every category is left as it is. */
  lemma ExtendsComplete(c: Character, c2: Character, cats: seq<string>)
    requires Extends(c, c2, cats) && HasAll(c, cats)
    ensures c2 == c
  {
    if |c2.streaks| > |c.streaks| {
      ExtendsAppendsMissing(c, c2, cats, |c.streaks|);
      assert false;
    }
    assert c2.streaks == c.streaks;
  }

  /** Index i of media is the first `.png` entry whose stem formats to name. */
  ghost predicate FirstEntryFor(media: seq<MediaEntry>, i: int, name: string) {
    && 0 <= i < |media|
    && IsPng(media[i])
    && FormatName(media[i].stem) == name
    && forall j :: 0 <= j < i && IsPng(media[j]) ==> FormatName(media[j].stem) != name
  }

  /** A character created from the media folder: a name not yet taken by the
      characters before it, the image of the first `.png` entry with that name, and
      one zeroed streak per category of its group. */
  ghost predicate IsDiscovered(before: seq<Character>, c: Character, media: seq<MediaEntry>,
                         killerCats: seq<string>, survivorCats: seq<string>) {
    && !HasName(before, c.name)
    && c.streaks == ZeroedStreaks(GroupCategories(c.name, killerCats, survivorCats))
    && exists i :: FirstEntryFor(media, i, c.name) && media[i].path == c.imagePath
  }

  /** A `.png` entry among the first n entries of media whose derived name no
      character of cs has. */
  ghost predicate HasNewEntry(cs: seq<Character>, media: seq<MediaEntry>, n: nat) {
    exists j :: 0 <= j < n && j < |media| && IsPng(media[j]) && !HasName(cs, FormatName(media[j].stem))
  }

  /** Every `.png` entry among the first n entries of media has its character in cs. */
  ghost predicate Covers(cs: seq<Character>, media: seq<MediaEntry>, n: nat) {
    forall j :: 0 <= j < n && j < |media| && IsPng(media[j]) ==> HasName(cs, FormatName(media[j].stem))
  }

  /** The characters of cs after the first `from` were discovered among the first n
      entries of media. */
  ghost predicate DiscoveredTail(cs: seq<Character>, from: nat, media: seq<MediaEntry>, n: nat,
                                 killerCats: seq<string>, survivorCats: seq<string>)
    requires n <= |media|
  {
    forall k :: from <= k < |cs| ==> IsDiscovered(cs[..k], cs[k], media[..n], killerCats, survivorCats)
  }

  /** What the discovery loop keeps after looking at the first n entries. */
  ghost predicate MergeInvariant(loaded: seq<Character>, media: seq<MediaEntry>, n: nat, cs: seq<Character>,
                                 killerCats: seq<string>, survivorCats: seq<string>) {
    && n <= |media|
    && loaded <= cs
    && (HasNewEntry(loaded, media, n) <==> |cs| > |loaded|)
    && Covers(cs, media, n)
    && DiscoveredTail(cs, |loaded|, media, n, killerCats, survivorCats)
  }

  /** The character discovered from a media entry. */
  function NewCharacter(e: MediaEntry, killerCats: seq<string>, survivorCats: seq<string>): (r: Character)
    ensures r.name == FormatName(e.stem) && r.imagePath == e.path
    ensures HasAll(r, GroupCategories(r.name, killerCats, survivorCats))
    ensures |r.streaks| == |GroupCategories(r.name, killerCats, survivorCats)|
    ensures forall k :: 0 <= k < |r.streaks| ==> r.streaks[k].name == GroupCategories(r.name, killerCats, survivorCats)[k]
    ensures forall k :: 0 <= k < |r.streaks| ==> r.streaks[k].current == 0 && r.streaks[k].best == 0
  {
    var name := FormatName(e.stem);
    var r := Character(name, e.path, ZeroedStreaks(GroupCategories(name, killerCats, survivorCats)));
    ZeroedHasAll(r, GroupCategories(name, killerCats, survivorCats));
    r
  }

  lemma IsDiscoveredWiden(before: seq<Character>, c: Character, media: seq<MediaEntry>, n: nat,
                          killerCats: seq<string>, survivorCats: seq<string>)
    requires n < |media|
    requires IsDiscovered(before, c, media[..n], killerCats, survivorCats)
    ensures IsDiscovered(before, c, media[..n + 1], killerCats, survivorCats)
  {
    var i :| FirstEntryFor(media[..n], i, c.name) && media[..n][i].path == c.imagePath;
    assert media[..n + 1][..n] == media[..n];
    assert FirstEntryFor(media[..n + 1], i, c.name);
  }

  /** The loop step for a `.png` entry whose name is new: one character is appended. */
  lemma {:induction false} MergeStepAppend(loaded: seq<Character>, media: seq<MediaEntry>, n: nat, cs: seq<Character>,
                                           killerCats: seq<string>, survivorCats: seq<string>)
    requires MergeInvariant(loaded, media, n, cs, killerCats, survivorCats) && n < |media|
    requires IsPng(media[n]) && !HasName(cs, FormatName(media[n].stem))
    ensures MergeInvariant(loaded, media, n + 1, cs + [NewCharacter(media[n], killerCats, survivorCats)], killerCats, survivorCats)
  {
    var name := FormatName(media[n].stem);
    var c := NewCharacter(media[n], killerCats, survivorCats);
    var cs2 := cs + [c];
    assert cs2[..|cs|] == cs;
    assert !HasName(loaded, name) by {
      assert forall k :: 0 <= k < |loaded| ==> cs[k] == loaded[k];
    }
    assert HasNewEntry(loaded, media, n + 1);
    forall j | 0 <= j < n + 1 && IsPng(media[j])
      ensures HasName(cs2, FormatName(media[j].stem))
    {
      if j < n {
        var k :| 0 <= k < |cs| && cs[k].name == FormatName(media[j].stem);
        assert cs2[k] == cs[k];
      } else {
        assert cs2[|cs|].name == name;
      }
    }
    forall k | |loaded| <= k < |cs2|
      ensures IsDiscovered(cs2[..k], cs2[k], media[..n + 1], killerCats, survivorCats)
    {
      if k < |cs| {
        assert cs2[..k] == cs[..k];
        IsDiscoveredWiden(cs[..k], cs[k], media, n, killerCats, survivorCats);
      } else {
        assert FirstEntryFor(media[..n + 1], n, name) by {
          forall j | 0 <= j < n && IsPng(media[j])
            ensures FormatName(media[j].stem) != name
          {
            var k :| 0 <= k < |cs| && cs[k].name == FormatName(media[j].stem);
          }
        }
      }
    }
  }

  /** The loop step for any other entry: nothing is appended. */
  lemma {:induction false} MergeStepSkip(loaded: seq<Character>, media: seq<MediaEntry>, n: nat, cs: seq<Character>,
                                         killerCats: seq<string>, survivorCats: seq<string>)
    requires MergeInvariant(loaded, media, n, cs, killerCats, survivorCats) && n < |media|
    requires !IsPng(media[n]) || HasName(cs, FormatName(media[n].stem))
    ensures MergeInvariant(loaded, media, n + 1, cs, killerCats, survivorCats)
  {
    assert forall k :: 0 <= k < |loaded| ==> loaded[k] == cs[k];
    forall k | |loaded| <= k < |cs|
      ensures IsDiscovered(cs[..k], cs[k], media[..n + 1], killerCats, survivorCats)
    {
      IsDiscoveredWiden(cs[..k], cs[k], media, n, killerCats, survivorCats);
    }
  }

  /** The discovery loop of `load_data`: appends a character for every `.png` entry
      whose derived name no character has yet. */
  method MergeDiscovered(loaded: seq<Character>, media: seq<MediaEntry>,
                         killerCats: seq<string>, survivorCats: seq<string>)
    returns (cs: seq<Character>, added: bool)
    ensures MergeInvariant(loaded, media, |media|, cs, killerCats, survivorCats)
    ensures added <==> |cs| > |loaded|
  {
    cs := loaded;
    added := false;
    for i := 0 to |media|
      invariant MergeInvariant(loaded, media, i, cs, killerCats, survivorCats)
      invariant added <==> |cs| > |loaded|
    {
      var entry := media[i];
      if IsPng(entry) && !HasName(cs, FormatName(entry.stem)) {
        MergeStepAppend(loaded, media, i, cs, killerCats, survivorCats);
        cs := cs + [NewCharacter(entry, killerCats, survivorCats)];
        added := true;
      } else {
        MergeStepSkip(loaded, media, i, cs, killerCats, survivorCats);
      }
    }
  }

  /** The category loop of `load_data`: every character gets the categories of its
      group; the result says whether any character gained one. */
  method EnsureAllCategories(cs: seq<Character>, killerCats: seq<string>, survivorCats: seq<string>)
    returns (cs2: seq<Character>, changed: bool)
    ensures |cs2| == |cs|
    ensures forall i :: 0 <= i < |cs| ==>
              Extends(cs[i], cs2[i], GroupCategories(cs[i].name, killerCats, survivorCats))
    ensures changed <==> exists i :: 0 <= i < |cs| && !HasAll(cs[i], GroupCategories(cs[i].name, killerCats, survivorCats))
    ensures !changed ==> cs2 == cs
  {
    cs2 := cs;
    changed := false;
    for i := 0 to |cs|
      invariant |cs2| == |cs|
      invariant forall j :: 0 <= j < i ==>
                  Extends(cs[j], cs2[j], GroupCategories(cs[j].name, killerCats, survivorCats))
      invariant forall j :: i <= j < |cs| ==> cs2[j] == cs[j]
      invariant changed <==> exists j :: 0 <= j < i && !HasAll(cs[j], GroupCategories(cs[j].name, killerCats, survivorCats))
      invariant !changed ==> cs2 == cs
    {
      var cats := GroupCategories(cs[i].name, killerCats, survivorCats);
      var c, updated := EnsureCategories(cs2[i], cats);
      cs2 := cs2[i := c];
      if updated {
        changed := true;
      }
    }
  }

  predicate SortedByName(cs: seq<Character>) {
    forall i, j :: 0 <= i < j < |cs| ==> NameLe(cs[i].name, cs[j].name)
  }

  /** A character that is at most every name of a sorted list can lead it. */
  lemma SortedCons(x: Character, cs: seq<Character>)
    requires SortedByName(cs) && forall k :: 0 <= k < |cs| ==> NameLe(x.name, cs[k].name)
    ensures SortedByName([x] + cs)
  {
    forall i, j | 0 <= i < j < |[x] + cs|
      ensures NameLe(([x] + cs)[i].name, ([x] + cs)[j].name)
    {
      if i > 0 {
        assert ([x] + cs)[i] == cs[i - 1];
      }
      assert ([x] + cs)[j] == cs[j - 1];
    }
  }

  /** An element of a list with the elements of cs plus c is c or an element of cs. */
  lemma InPlusOne(r: seq<Character>, c: Character, cs: seq<Character>, x: Character)
    requires multiset(r) == multiset(cs) + multiset{c} && x in r && x != c
    ensures x in cs
  {
    assert x in multiset(r);
  }

  /** Inserts c in front of the first character whose name is not below it. */
  function InsertByName(c: Character, cs: seq<Character>): (r: seq<Character>)
    requires SortedByName(cs)
    ensures SortedByName(r)
    ensures multiset(r) == multiset(cs) + multiset{c}
  {
    if cs == [] || NameLe(c.name, cs[0].name) then
      assert forall k :: 0 <= k < |cs| ==> NameLe(c.name, cs[k].name) by {
        forall k | 0 <= k < |cs|
          ensures NameLe(c.name, cs[k].name)
        {
          if k > 0 {
            NameLeTransitive(c.name, cs[0].name, cs[k].name);
          }
        }
      }
      SortedCons(c, cs);
      [c] + cs
    else
      NameLeTotal(c.name, cs[0].name);
      var rest := InsertByName(c, cs[1..]);
      assert cs == [cs[0]] + cs[1..];
      assert forall k :: 0 <= k < |rest| ==> NameLe(cs[0].name, rest[k].name) by {
        forall k | 0 <= k < |rest|
          ensures NameLe(cs[0].name, rest[k].name)
        {
          if rest[k] != c {
            InPlusOne(rest, c, cs[1..], rest[k]);
          }
        }
      }
      SortedCons(cs[0], rest);
      [cs[0]] + rest
  }

  /** `sort_by` on names: a stable insertion sort. */
  function SortByName(cs: seq<Character>): (r: seq<Character>)
    ensures SortedByName(r)
    ensures multiset(r) == multiset(cs)
  {
    if cs == [] then []
    else
      assert cs == [cs[0]] + cs[1..];
      InsertByName(cs[0], SortByName(cs[1..]))
  }

  /** Sorting a list that is already sorted leaves it as it is. */
  lemma {:induction false} SortSorted(cs: seq<Character>)
    requires SortedByName(cs)
    ensures SortByName(cs) == cs
  {
    if cs != [] {
      SortSorted(cs[1..]);
      assert cs == [cs[0]] + cs[1..];
    }
  }

  /** Inserting a character whose name is new keeps the names unique. */
  lemma {:induction false} InsertUnique(c: Character, cs: seq<Character>)
    requires SortedByName(cs) && UniqueNames(cs) && !HasName(cs, c.name)
    ensures UniqueNames(InsertByName(c, cs))
  {
    if cs != [] && !NameLe(c.name, cs[0].name) {
      var rest := InsertByName(c, cs[1..]);
      assert cs == [cs[0]] + cs[1..];
      InsertUnique(c, cs[1..]);
      forall k | 0 <= k < |rest|
        ensures rest[k].name != cs[0].name
      {
        if rest[k] != c {
          InPlusOne(rest, c, cs[1..], rest[k]);
        }
      }
    }
  }

  /** Sorting keeps the names unique. */
  lemma {:induction false} SortUnique(cs: seq<Character>)
    requires UniqueNames(cs)
    ensures UniqueNames(SortByName(cs))
  {
    if cs != [] {
      var rest := SortByName(cs[1..]);
      SortUnique(cs[1..]);
      forall k | 0 <= k < |rest|
        ensures rest[k].name != cs[0].name
      {
        assert rest[k] in multiset(rest);
        assert rest[k] in cs[1..];
      }
      InsertUnique(cs[0], rest);
    }
  }

  /** A character discovered from the media folder already has every category of its group. */
  lemma ZeroedHasAll(c: Character, cats: seq<string>)
    requires c.streaks == ZeroedStreaks(cats)
    ensures HasAll(c, cats)
  {
    forall n | n in cats
      ensures HasStreak(c.streaks, n)
    {
      var i :| 0 <= i < |cats| && cats[i] == n;
      assert c.streaks[i].name == n;
    }
  }

  /** A reconciled list: sorted by name, a character for every `.png` entry, and
      every category of its group on every character. */
  ghost predicate IsReconciled(cs: seq<Character>, media: seq<MediaEntry>,
                               killerCats: seq<string>, survivorCats: seq<string>) {
    && SortedByName(cs)
    && Covers(cs, media, |media|)
    && forall k :: 0 <= k < |cs| ==> HasAll(cs[k], GroupCategories(cs[k].name, killerCats, survivorCats))
  }

  /** c comes from the loaded character i: its streaks extended by its group's categories. */
  ghost predicate FromLoaded(loaded: seq<Character>, i: int, c: Character,
                             killerCats: seq<string>, survivorCats: seq<string>) {
    0 <= i < |loaded| && Extends(loaded[i], c, GroupCategories(loaded[i].name, killerCats, survivorCats))
  }

  /** The loaded character i is still in cs, with its streaks extended. */
  ghost predicate Survives(loaded: seq<Character>, i: int, cs: seq<Character>,
                           killerCats: seq<string>, survivorCats: seq<string>) {
    exists k :: 0 <= k < |cs| && FromLoaded(loaded, i, cs[k], killerCats, survivorCats)
  }

  /** What the two loops of `load_data` leave: `merged` after the discovery loop,
      `ensured` after the category loop. */
  ghost predicate Phases(loaded: seq<Character>, media: seq<MediaEntry>,
                         killerCats: seq<string>, survivorCats: seq<string>,
                         merged: seq<Character>, ensured: seq<Character>) {
    && MergeInvariant(loaded, media, |media|, merged, killerCats, survivorCats)
    && |ensured| == |merged|
    && forall i :: 0 <= i < |merged| ==>
         Extends(merged[i], ensured[i], GroupCategories(merged[i].name, killerCats, survivorCats))
  }

  /** After both loops: loaded characters sit unchanged at the front of the merged
      list, and every later one was discovered and kept its zeroed streaks. */
  lemma PhasesTail(loaded: seq<Character>, media: seq<MediaEntry>,
                   killerCats: seq<string>, survivorCats: seq<string>,
                   merged: seq<Character>, ensured: seq<Character>)
    requires Phases(loaded, media, killerCats, survivorCats, merged, ensured)
    ensures forall i :: 0 <= i < |loaded| ==> merged[i] == loaded[i]
    ensures forall p :: |loaded| <= p < |merged| ==>
              ensured[p] == merged[p] && IsDiscovered(loaded, merged[p], media, killerCats, survivorCats)
  {
    assert media[..|media|] == media;
    forall p | |loaded| <= p < |merged|
      ensures ensured[p] == merged[p]
      ensures IsDiscovered(loaded, merged[p], media, killerCats, survivorCats)
    {
      assert IsDiscovered(merged[..p], merged[p], media, killerCats, survivorCats);
      ZeroedHasAll(merged[p], GroupCategories(merged[p].name, killerCats, survivorCats));
      ExtendsComplete(merged[p], ensured[p], GroupCategories(merged[p].name, killerCats, survivorCats));
      assert forall j :: 0 <= j < |loaded| ==> merged[..p][j] == loaded[j];
    }
  }

  /** Where the list after both loops comes from, position by position: the
      loaded characters first, each one extended by its group's categories, then
      the discovered ones, each new with respect to everything before it. */
  ghost predicate Origins(loaded: seq<Character>, media: seq<MediaEntry>,
                          killerCats: seq<string>, survivorCats: seq<string>, ensured: seq<Character>) {
    && |ensured| >= |loaded|
    && (forall i :: 0 <= i < |loaded| ==> FromLoaded(loaded, i, ensured[i], killerCats, survivorCats))
    && (forall p :: |loaded| <= p < |ensured| ==>
          IsDiscovered(ensured[..p], ensured[p], media, killerCats, survivorCats))
  }

  /** Both loops keep every loaded character at its own position and add only
      discovered ones. */
  lemma PhasesOrigins(loaded: seq<Character>, media: seq<MediaEntry>,
                      killerCats: seq<string>, survivorCats: seq<string>,
                      merged: seq<Character>, ensured: seq<Character>)
    requires Phases(loaded, media, killerCats, survivorCats, merged, ensured)
    ensures Origins(loaded, media, killerCats, survivorCats, ensured)
  {
    PhasesTail(loaded, media, killerCats, survivorCats, merged, ensured);
    assert media[..|media|] == media;
    forall p | |loaded| <= p < |ensured|
      ensures IsDiscovered(ensured[..p], ensured[p], media, killerCats, survivorCats)
    {
      assert IsDiscovered(merged[..p], merged[p], media, killerCats, survivorCats);
      forall j | 0 <= j < p
        ensures ensured[..p][j].name != ensured[p].name
      {
        assert merged[..p][j] == merged[j];
      }
    }
  }

  /** A list with the elements of such a list is at least as long as the loaded
      list, so no loaded character is lost, even one whose name repeats. */
  lemma OriginsKeepCount(loaded: seq<Character>, media: seq<MediaEntry>,
                         killerCats: seq<string>, survivorCats: seq<string>,
                         ensured: seq<Character>, cs: seq<Character>)
    requires Origins(loaded, media, killerCats, survivorCats, ensured)
    requires multiset(cs) == multiset(ensured)
    ensures |cs| == |ensured| >= |loaded|
  {
    assert |multiset(cs)| == |multiset(ensured)|;
  }

  /** The sorted list holds the characters of the list after both loops: each
      one has its group's categories and was either loaded or discovered, and
      every loaded one survives. */
  lemma SortedOrigins(loaded: seq<Character>, media: seq<MediaEntry>,
                      killerCats: seq<string>, survivorCats: seq<string>,
                      merged: seq<Character>, ensured: seq<Character>, cs: seq<Character>)
    requires Phases(loaded, media, killerCats, survivorCats, merged, ensured)
    requires multiset(cs) == multiset(ensured)
    ensures Covers(cs, media, |media|)
    ensures forall k :: 0 <= k < |cs| ==> HasAll(cs[k], GroupCategories(cs[k].name, killerCats, survivorCats))
    ensures forall k :: 0 <= k < |cs| ==>
              || (exists i :: FromLoaded(loaded, i, cs[k], killerCats, survivorCats))
              || IsDiscovered(loaded, cs[k], media, killerCats, survivorCats)
    ensures forall i :: 0 <= i < |loaded| ==> Survives(loaded, i, cs, killerCats, survivorCats)
  {
    PhasesTail(loaded, media, killerCats, survivorCats, merged, ensured);
    forall j | 0 <= j < |media| && IsPng(media[j])
      ensures HasName(cs, FormatName(media[j].stem))
    {
      var p :| 0 <= p < |merged| && merged[p].name == FormatName(media[j].stem);
      assert ensured[p] in multiset(cs);
      var k :| 0 <= k < |cs| && cs[k] == ensured[p];
    }
    forall k | 0 <= k < |cs|
      ensures HasAll(cs[k], GroupCategories(cs[k].name, killerCats, survivorCats))
      ensures || (exists i :: FromLoaded(loaded, i, cs[k], killerCats, survivorCats))
              || IsDiscovered(loaded, cs[k], media, killerCats, survivorCats)
    {
      assert cs[k] in multiset(ensured);
      var p :| 0 <= p < |ensured| && ensured[p] == cs[k];
      if p < |loaded| {
        assert FromLoaded(loaded, p, cs[k], killerCats, survivorCats);
      }
    }
    forall i | 0 <= i < |loaded|
      ensures Survives(loaded, i, cs, killerCats, survivorCats)
    {
      assert ensured[i] in multiset(cs);
      var k :| 0 <= k < |cs| && cs[k] == ensured[i];
      assert FromLoaded(loaded, i, cs[k], killerCats, survivorCats);
    }
  }

  /** Unique loaded names stay unique through both loops. */
  lemma PhasesUnique(loaded: seq<Character>, media: seq<MediaEntry>,
                     killerCats: seq<string>, survivorCats: seq<string>,
                     merged: seq<Character>, ensured: seq<Character>)
    requires Phases(loaded, media, killerCats, survivorCats, merged, ensured)
    requires UniqueNames(loaded)
    ensures UniqueNames(ensured)
  {
    PhasesTail(loaded, media, killerCats, survivorCats, merged, ensured);
    forall i, j | 0 <= i < j < |ensured|
      ensures ensured[i].name != ensured[j].name
    {
      if j >= |loaded| {
        assert merged[..j][i] == merged[i];
      }
    }
  }

  /** The data part of `load_data`, from the scan of the media folder on: `loaded`
      is the decoded content of the saved file, `media` the folder's entries and the
      category lists those read by `load_categories_from_file`. Returns the sorted
      list and, when anything changed, the list that is written back, which is
      the list before sorting. */
  method Reconcile(loaded: seq<Character>, media: seq<MediaEntry>,
                   killerCats: seq<string>, survivorCats: seq<string>)
    returns (cs: seq<Character>, saved: Option<seq<Character>>, ghost ensured: seq<Character>)
    ensures IsReconciled(cs, media, killerCats, survivorCats)
    ensures Origins(loaded, media, killerCats, survivorCats, ensured) && multiset(cs) == multiset(ensured)
    ensures saved.Some? ==> saved.value == ensured
    ensures forall i :: 0 <= i < |loaded| ==> Survives(loaded, i, cs, killerCats, survivorCats)
    ensures forall k :: 0 <= k < |cs| ==>
              || (exists i :: FromLoaded(loaded, i, cs[k], killerCats, survivorCats))
              || IsDiscovered(loaded, cs[k], media, killerCats, survivorCats)
    ensures UniqueNames(loaded) ==> UniqueNames(cs)
    ensures saved.Some? <==>
              || HasNewEntry(loaded, media, |media|)
              || exists i :: 0 <= i < |loaded| && !HasAll(loaded[i], GroupCategories(loaded[i].name, killerCats, survivorCats))
    ensures saved.Some? ==> multiset(saved.value) == multiset(cs)
    ensures IsReconciled(loaded, media, killerCats, survivorCats) ==> cs == loaded && saved.None?
  {
    var merged, added := MergeDiscovered(loaded, media, killerCats, survivorCats);
    var extended, updated := EnsureAllCategories(merged, killerCats, survivorCats);
    saved := if added || updated then Some(extended) else None;
    cs := SortByName(extended);
    ensured := extended;

    PhasesTail(loaded, media, killerCats, survivorCats, merged, ensured);
    PhasesOrigins(loaded, media, killerCats, survivorCats, merged, ensured);
    SortedOrigins(loaded, media, killerCats, survivorCats, merged, ensured, cs);
    assert updated <==> exists i :: 0 <= i < |loaded| && !HasAll(loaded[i], GroupCategories(loaded[i].name, killerCats, survivorCats));
    if UniqueNames(loaded) {
      PhasesUnique(loaded, media, killerCats, survivorCats, merged, ensured);
      SortUnique(ensured);
    }
    if IsReconciled(loaded, media, killerCats, survivorCats) {
      assert !HasNewEntry(loaded, media, |media|);
      assert merged == loaded;
      SortSorted(loaded);
    }
  }

  /** The saved list as decoded: None stands for a missing file or one that does not
      decode, both of which give the empty list. */
  function Decoded(persisted: Option<seq<Character>>): seq<Character> {
    if persisted.Some? then persisted.value else []
  }

  /** The entries of the media folder: None stands for a folder that cannot be read,
      which gives no entry. */
  function Listing(mediaDir: Option<seq<MediaEntry>>): seq<MediaEntry> {
    if mediaDir.Some? then mediaDir.value else []
  }

  /** `load_data`: reads both category files (falling back to the defaults), takes
      the decoded saved list and the media folder, and reconciles them. */
  method LoadData(killerFile: Option<seq<LineRead>>, survivorFile: Option<seq<LineRead>>,
                  persisted: Option<seq<Character>>, mediaDir: Option<seq<MediaEntry>>)
    returns (cs: seq<Character>, saved: Option<seq<Character>>, ghost ensured: seq<Character>)
    ensures var killerCats := LoadCategories(killerFile, DEFAULT_KILLER_CATEGORIES);
            var survivorCats := LoadCategories(survivorFile, DEFAULT_SURVIVOR_CATEGORIES);
            && IsReconciled(cs, Listing(mediaDir), killerCats, survivorCats)
            && (forall i :: 0 <= i < |Decoded(persisted)| ==> Survives(Decoded(persisted), i, cs, killerCats, survivorCats))
            && (forall k :: 0 <= k < |cs| ==>
                  || (exists i :: FromLoaded(Decoded(persisted), i, cs[k], killerCats, survivorCats))
                  || IsDiscovered(Decoded(persisted), cs[k], Listing(mediaDir), killerCats, survivorCats))
            && (UniqueNames(Decoded(persisted)) ==> UniqueNames(cs))
            && (saved.Some? <==>
                  || HasNewEntry(Decoded(persisted), Listing(mediaDir), |Listing(mediaDir)|)
                  || exists i :: 0 <= i < |Decoded(persisted)| &&
                       !HasAll(Decoded(persisted)[i], GroupCategories(Decoded(persisted)[i].name, killerCats, survivorCats)))
            && (saved.Some? ==> multiset(saved.value) == multiset(cs))
            && (IsReconciled(Decoded(persisted), Listing(mediaDir), killerCats, survivorCats) ==>
                  cs == Decoded(persisted) && saved.None?)
    ensures Origins(Decoded(persisted), Listing(mediaDir), LoadCategories(killerFile, DEFAULT_KILLER_CATEGORIES),
                    LoadCategories(survivorFile, DEFAULT_SURVIVOR_CATEGORIES), ensured)
    ensures multiset(cs) == multiset(ensured) && (saved.Some? ==> saved.value == ensured)
  {
    var killerCats := LoadCategories(killerFile, DEFAULT_KILLER_CATEGORIES);
    var survivorCats := LoadCategories(survivorFile, DEFAULT_SURVIVOR_CATEGORIES);
    cs, saved, ensured := Reconcile(Decoded(persisted), Listing(mediaDir), killerCats, survivorCats);
  }

  /** The facts about the first-start inputs: "Nurse.png" is a `.png` entry that
      names the killer "Nurse", and missing category files give the defaults. */
  lemma FirstStartInputs(nurse: MediaEntry)
    requires nurse == MediaEntry("Nurse", Some("png"), "media/Nurse.png")
    ensures IsPng(nurse) && FormatName(nurse.stem) == "Nurse" && !IsSurvivor("Nurse")
    ensures LoadCategories(None, DEFAULT_KILLER_CATEGORIES) == DEFAULT_KILLER_CATEGORIES
    ensures LoadCategories(None, DEFAULT_SURVIVOR_CATEGORIES) == DEFAULT_SURVIVOR_CATEGORIES
  {
    assert ReplaceUnderscores("Nurse") == "Nurse";
    assert |"Nurse"| != |SURVIVOR|;
  }

  /** With nothing saved and only "Nurse.png" in the media folder, every reconciled
      list with unique names is the single zeroed "Nurse". */
  lemma FirstStartResult(cs: seq<Character>, nurse: MediaEntry)
    requires nurse == MediaEntry("Nurse", Some("png"), "media/Nurse.png")
    requires Covers(cs, [nurse], 1) && UniqueNames(cs)
    requires forall k :: 0 <= k < |cs| ==>
               IsDiscovered([], cs[k], [nurse], DEFAULT_KILLER_CATEGORIES, DEFAULT_SURVIVOR_CATEGORIES)
    ensures cs == [Character("Nurse", "media/Nurse.png", ZeroedStreaks(DEFAULT_KILLER_CATEGORIES))]
  {
    var expected := Character("Nurse", "media/Nurse.png", ZeroedStreaks(DEFAULT_KILLER_CATEGORIES));
    FirstStartInputs(nurse);
    assert [nurse][0] == nurse;
    assert HasName(cs, FormatName([nurse][0].stem));
    forall k | 0 <= k < |cs|
      ensures cs[k] == expected
    {
      var i :| FirstEntryFor([nurse], i, cs[k].name) && [nurse][i].path == cs[k].imagePath;
    }
    assert |cs| > 1 ==> cs[0].name == cs[1].name;
  }

  /** A list with the same elements as a one-element list is that list. */
  lemma SameAsSingleton(written: seq<Character>, cs: seq<Character>)
    requires |cs| == 1 && multiset(written) == multiset(cs)
    ensures written == cs
  {
    assert |written| == |multiset(written)|;
    assert cs[0] in multiset(written);
  }

  /** First start with no category files, no saved file and a media folder holding
      `Nurse.png`: one character "Nurse" with the four default categories, zeroed,
      and the list is written back. */
  method FirstStartScenario() returns (cs: seq<Character>, saved: Option<seq<Character>>)
    ensures cs == [Character("Nurse", "media/Nurse.png", ZeroedStreaks(DEFAULT_KILLER_CATEGORIES))]
    ensures saved == Some(cs)
  {
    var nurse := MediaEntry("Nurse", Some("png"), "media/Nurse.png");
    FirstStartInputs(nurse);
    assert Listing(Some([nurse])) == [nurse];
    assert Decoded(None) == [];
    ghost var ensured;
    cs, saved, ensured := LoadData(None, None, None, Some([nurse]));
    FirstStartResult(cs, nurse);
    assert [nurse][0] == nurse;
    assert !HasName([], FormatName([nurse][0].stem));
    assert HasNewEntry([], [nurse], 1);
    SameAsSingleton(saved.value, cs);
  }
}
