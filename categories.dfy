/** The category source: the list of streak categories read from a comment-tolerant
    text file (`killer_streaks.txt`, `survivor_streaks.txt`), with the built-in
    defaults when the file is missing or holds no category. */
module CategorySource {
  import opened Wrappers
  import opened Text

  const DEFAULT_KILLER_CATEGORIES: seq<string> := ["4k", "3k", "Perkless 4k", "Perkless 3k"]
  const DEFAULT_SURVIVOR_CATEGORIES: seq<string> := ["Solo escape", "3 out"]

  /** One result of reading a line: its text, or a read error (e.g. invalid UTF-8). */
  datatype LineRead = Line(text: string) | ReadError

  /** The lines a `map_while(Result::ok)` pipeline sees: everything before the first
      read error. */
  function ReadableLines(results: seq<LineRead>): (r: seq<string>)
    ensures |r| <= |results|
    ensures forall i :: 0 <= i < |r| ==> results[i] == Line(r[i])
    ensures |r| < |results| ==> results[|r|] == ReadError
  {
    if results == [] || results[0].ReadError? then [] else [results[0].text] + ReadableLines(results[1..])
  }

  /** A trimmed line names a category when it is neither empty nor a `#` comment. */
  predicate IsCategory(t: string) {
    t != [] && t[0] != '#'
  }

  /** The trimmed lines that name categories, in file order, duplicates kept. */
  function FilterLines(lines: seq<string>): (r: seq<string>)
    ensures |r| <= |lines|
    ensures forall i :: 0 <= i < |r| ==> IsCategory(r[i])
  {
    if lines == [] then []
    else
      var t := Trim(lines[0]);
      (if IsCategory(t) then [t] else []) + FilterLines(lines[1..])
  }

  /** `load_categories_from_file`: the categories of the file when it can be opened
      and names at least one; the defaults otherwise (None stands for a file that
      cannot be opened). Creating the default file is I/O and is not modelled. */
  function LoadCategories(file: Option<seq<LineRead>>, defaults: seq<string>): (r: seq<string>)
    ensures r == defaults || (file.Some? && r != [])
    ensures r != defaults ==> forall i :: 0 <= i < |r| ==> IsCategory(r[i]) && Trim(r[i]) == r[i]
  {
    if file.Some? && FilterLines(ReadableLines(file.value)) != [] then
      FilterLinesTrimmed(ReadableLines(file.value));
      FilterLines(ReadableLines(file.value))
    else defaults
  }

  /** Filtering distributes over concatenation: each line is judged on its own and
      the survivors keep their order. */
  lemma {:induction false} FilterLinesAppend(a: seq<string>, b: seq<string>)
    ensures FilterLines(a + b) == FilterLines(a) + FilterLines(b)
  {
    if a == [] {
      assert a + b == b;
    } else {
      assert (a + b)[0] == a[0];
      assert (a + b)[1..] == a[1..] + b;
      FilterLinesAppend(a[1..], b);
    }
  }

  /** A string is returned exactly when it is the trimmed form of some category line. */
  lemma {:induction false} FilterLinesMembership(lines: seq<string>, s: string)
    ensures s in FilterLines(lines) <==>
            exists i :: 0 <= i < |lines| && IsCategory(Trim(lines[i])) && Trim(lines[i]) == s
  {
    if lines != [] {
      FilterLinesMembership(lines[1..], s);
      if s in FilterLines(lines[1..]) {
        var i :| 0 <= i < |lines[1..]| && IsCategory(Trim(lines[1..][i])) && Trim(lines[1..][i]) == s;
        assert lines[i + 1] == lines[1..][i];
      }
      if exists i :: 0 <= i < |lines| && IsCategory(Trim(lines[i])) && Trim(lines[i]) == s {
        var i :| 0 <= i < |lines| && IsCategory(Trim(lines[i])) && Trim(lines[i]) == s;
        if i > 0 {
          assert lines[1..][i - 1] == lines[i];
        }
      }
    }
  }

  /** Every returned category is already trimmed. */
  lemma {:induction false} FilterLinesTrimmed(lines: seq<string>)
    ensures forall i :: 0 <= i < |FilterLines(lines)| ==> Trim(FilterLines(lines)[i]) == FilterLines(lines)[i]
  {
    if lines != [] {
      FilterLinesTrimmed(lines[1..]);
      TrimIdempotent(lines[0]);
    }
  }

  /** Filtering the returned categories again returns them unchanged. */
  lemma {:induction false} FilterLinesIdempotent(lines: seq<string>)
    ensures FilterLines(FilterLines(lines)) == FilterLines(lines)
  {
    if lines != [] {
      var t := Trim(lines[0]);
      var head := if IsCategory(t) then [t] else [];
      FilterLinesAppend(head, FilterLines(lines[1..]));
      FilterLinesIdempotent(lines[1..]);
      if IsCategory(t) {
        TrimIdempotent(lines[0]);
        assert FilterLines(head) == head by {
          assert head[1..] == [];
        }
      }
    }
  }

  /** A file that names no category yields the defaults; one that names some yields
      exactly those. */
  lemma LoadCategoriesFallback(file: Option<seq<LineRead>>, defaults: seq<string>)
    ensures (file.None? || FilterLines(ReadableLines(file.value)) == []) ==> LoadCategories(file, defaults) == defaults
    ensures file.Some? && FilterLines(ReadableLines(file.value)) != [] ==>
            LoadCategories(file, defaults) == FilterLines(ReadableLines(file.value))
  {
  }
}
