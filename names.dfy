/** Derivation of a character's display name from the stem of its image file
    (`format_name`): underscores become spaces, and a space is inserted at every
    lower-case/upper-case boundary ("PigMask" becomes "Pig Mask"). */
module NameFormat {
  import opened Text

  /** `str::replace('_', " ")`. */
  function ReplaceUnderscores(s: string): (r: string)
    ensures |r| == |s| && '_' !in r
    ensures forall i :: 0 <= i < |s| ==> r[i] == (if s[i] == '_' then ' ' else s[i])
  {
    seq(|s|, i requires 0 <= i < |s| => if s[i] == '_' then ' ' else s[i])
  }

  /** One step of the fold over the characters: `c` is pushed, preceded by a space
      when it is upper-case and the text built so far ends in a lower-case letter. */
  function Push(acc: string, c: char): (r: string)
    ensures acc <= r && |r| > |acc| && r[|r| - 1] == c
    ensures |r| == |acc| + 1 || (|r| == |acc| + 2 && r[|acc|] == ' ')
    ensures |r| == |acc| + 2 <==> IsUpper(c) && acc != [] && IsLower(acc[|acc| - 1])
  {
    (if IsUpper(c) && acc != [] && IsLower(acc[|acc| - 1]) then acc + " " else acc) + [c]
  }

  /** The left fold of Push over `rest`, starting from `acc`. */
  function Fold(acc: string, rest: string): (r: string)
    decreases |rest|
  {
    if rest == [] then acc else Fold(Push(acc, rest[0]), rest[1..])
  }

  /** `format_name`. */
  function FormatName(stem: string): (r: string)
  {
    Fold([], ReplaceUnderscores(stem))
  }

  /** A word boundary at index i of t: a lower-case letter followed by an upper-case one. */
  predicate Boundary(t: string, i: int) {
    0 < i < |t| && IsLower(t[i - 1]) && IsUpper(t[i])
  }

  /** The number of word boundaries at indices below n. */
  function BoundariesBefore(t: string, n: nat): nat
    requires n <= |t|
  {
    if n == 0 then 0 else BoundariesBefore(t, n - 1) + (if Boundary(t, n - 1) then 1 else 0)
  }

  /** Reference definition: t with one space inserted in front of every boundary. */
  function Spaced(t: string): string {
    if t == [] then []
    else Spaced(t[..|t| - 1]) + (if Boundary(t, |t| - 1) then " " else "") + [t[|t| - 1]]
  }

  /** Boundaries below n only depend on the first n characters. */
  lemma {:induction false} BoundariesOfPrefix(t: string, u: string, n: nat)
    requires n <= |u| <= |t| && u == t[..|u|]
    ensures BoundariesBefore(t, n) == BoundariesBefore(u, n)
  {
    if n > 0 {
      BoundariesOfPrefix(t, u, n - 1);
      assert Boundary(t, n - 1) == Boundary(u, n - 1);
    }
  }

  /** Spacing keeps every character and adds exactly one per boundary. */
  lemma {:induction false} SpacedLength(t: string)
    ensures |Spaced(t)| == |t| + BoundariesBefore(t, |t|)
  {
    if t != [] {
      var u := t[..|t| - 1];
      SpacedLength(u);
      BoundariesOfPrefix(t, u, |u|);
    }
  }

  /** Spacing never ends in an inserted space: its last character is t's last. */
  lemma SpacedLast(t: string)
    requires t != []
    ensures Spaced(t) != [] && Spaced(t)[|Spaced(t)| - 1] == t[|t| - 1]
  {
  }

  /** Character i of t sits at position i + (boundaries up to i) of the spaced
      text, and at a boundary the position just before it holds the inserted space. */
  lemma {:induction false} SpacedAt(t: string, i: nat)
    requires i < |t|
    ensures i + BoundariesBefore(t, i + 1) < |Spaced(t)|
    ensures Spaced(t)[i + BoundariesBefore(t, i + 1)] == t[i]
    ensures Boundary(t, i) ==> Spaced(t)[i + BoundariesBefore(t, i + 1) - 1] == ' '
  {
    var u := t[..|t| - 1];
    SpacedLength(u);
    SpacedLength(t);
    if i < |u| {
      SpacedAt(u, i);
      BoundariesOfPrefix(t, u, i + 1);
      assert Spaced(t) == Spaced(u) + Spaced(t)[|Spaced(u)|..];
    } else {
      BoundariesOfPrefix(t, u, |u|);
    }
  }

  /** Spacing introduces no character other than a space. */
  lemma {:induction false} SpacedChars(t: string)
    ensures forall k :: 0 <= k < |Spaced(t)| ==> Spaced(t)[k] == ' ' || Spaced(t)[k] in t
  {
    if t != [] {
      var u := t[..|t| - 1];
      SpacedChars(u);
      forall k | 0 <= k < |Spaced(t)|
        ensures Spaced(t)[k] == ' ' || Spaced(t)[k] in t
      {
        if k < |Spaced(u)| {
          assert Spaced(t)[k] == Spaced(u)[k];
          if Spaced(u)[k] in u {
            var j :| 0 <= j < |u| && u[j] == Spaced(u)[k];
            assert t[j] == u[j];
          }
        }
      }
    }
  }

  /** The fold continues a spaced prefix: folding q onto Spaced(p) spaces p + q. */
  lemma {:induction false} FoldSpaced(p: string, q: string)
    ensures Fold(Spaced(p), q) == Spaced(p + q)
    decreases |q|
  {
    if q != [] {
      var p' := p + [q[0]];
      assert p'[..|p'| - 1] == p;
      if p != [] {
        SpacedLast(p);
      }
      assert Push(Spaced(p), q[0]) == Spaced(p');
      assert p' + q[1..] == p + q;
      FoldSpaced(p', q[1..]);
    } else {
      assert p + q == p;
    }
  }

  /** `format_name` is the spacing of the stem with underscores replaced. */
  lemma FormatNameIsSpaced(stem: string)
    ensures FormatName(stem) == Spaced(ReplaceUnderscores(stem))
  {
    FoldSpaced([], ReplaceUnderscores(stem));
    assert [] + ReplaceUnderscores(stem) == ReplaceUnderscores(stem);
  }

  /** A derived name never contains an underscore. */
  lemma FormatNameHasNoUnderscore(stem: string)
    ensures '_' !in FormatName(stem)
  {
    FormatNameIsSpaced(stem);
    SpacedChars(ReplaceUnderscores(stem));
  }

  /** Folding a concatenation is folding the second part onto the fold of the first. */
  lemma {:induction false} FoldAppend(acc: string, a: string, b: string)
    ensures Fold(acc, a + b) == Fold(Fold(acc, a), b)
    decreases |a|
  {
    if a == [] {
      assert a + b == b;
    } else {
      assert (a + b)[0] == a[0];
      assert (a + b)[1..] == a[1..] + b;
      FoldAppend(Push(acc, a[0]), a[1..], b);
    }
  }

  /** Text without upper-case letters is copied unchanged: no space is inserted. */
  lemma {:induction false} FoldNoUpper(acc: string, s: string)
    requires forall i :: 0 <= i < |s| ==> !IsUpper(s[i])
    ensures Fold(acc, s) == acc + s
    decreases |s|
  {
    if s != [] {
      assert Push(acc, s[0]) == acc + [s[0]];
      FoldNoUpper(acc + [s[0]], s[1..]);
      assert acc + [s[0]] + s[1..] == acc + s;
    }
  }

  /** Folding over a leading character is pushing it and folding the rest. */
  lemma FoldCons(acc: string, c: char, rest: string)
    ensures Fold(acc, [c] + rest) == Fold(Push(acc, c), rest)
  {
    assert ([c] + rest)[0] == c;
    assert ([c] + rest)[1..] == rest;
  }

  /** A word whose only possible capital is its first letter keeps its form. */
  lemma FoldWord(u: char, a: string)
    requires forall i :: 0 <= i < |a| ==> !IsUpper(a[i])
    ensures Fold([], [u] + a) == [u] + a
  {
    FoldCons([], u, a);
    assert Push([], u) == [u];
    FoldNoUpper([u], a);
  }

  /** Two such words: the second letter `v` is pushed onto the first word, with a
      space when `v` is upper-case and the first word ends in a lower-case letter. */
  lemma FoldTwoWords(u: char, a: string, v: char, b: string)
    requires forall i :: 0 <= i < |a| ==> !IsUpper(a[i])
    requires forall i :: 0 <= i < |b| ==> !IsUpper(b[i])
    ensures Fold([], [u] + a + [v] + b) == Push([u] + a, v) + b
  {
    var w := [u] + a;
    var p := Push(w, v);
    assert [u] + a + [v] + b == w + ([v] + b);
    FoldWord(u, a);
    assert Fold([], w) == w;
    FoldAppend([], w, [v] + b);
    assert Fold([], w + ([v] + b)) == Fold(w, [v] + b);
    FoldCons(w, v, b);
    assert Fold(w, [v] + b) == Fold(p, b);
    FoldNoUpper(p, b);
  }

  /** The pieces of the "The_Trapper" example: the stem with its underscore
      replaced, split into two words, and the second word's capital pushed. */
  lemma TrapperPieces()
    ensures ReplaceUnderscores("The_Trapper") == ['T'] + "he " + ['T'] + "rapper"
    ensures Push(['T'] + "he ", 'T') + "rapper" == "The Trapper"
  {
  }

  /** Worked example: "The_Trapper" becomes "The Trapper". */
  lemma FormatNameTrapper()
    ensures FormatName("The_Trapper") == "The Trapper"
  {
    TrapperPieces();
    FoldTwoWords('T', "he ", 'T', "rapper");
  }

  /** The pieces of the "PigMask" example: two words, and the second word's capital
      pushed after a space. */
  lemma PigMaskPieces()
    ensures ReplaceUnderscores("PigMask") == ['P'] + "ig" + ['M'] + "ask"
    ensures Push(['P'] + "ig", 'M') + "ask" == "Pig Mask"
  {
  }

  /** Worked example: "PigMask" becomes "Pig Mask". */
  lemma FormatNamePigMask()
    ensures FormatName("PigMask") == "Pig Mask"
  {
    PigMaskPieces();
    FoldTwoWords('P', "ig", 'M', "ask");
  }

  /** Worked example: "Oni" stays "Oni". */
  lemma FormatNameOni()
    ensures FormatName("Oni") == "Oni"
  {
    assert ReplaceUnderscores("Oni") == "Oni" by {}
    assert "Oni" == ['O'] + "ni" by {}
    FoldWord('O', "ni");
  }
}
