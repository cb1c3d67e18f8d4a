/** `FileFilter`: one entry of a file dialog's type list, and `CreateFilter`,
    which joins entries into a Win32 filter string of the form
    `Desc (*ext)|*ext|...`. */
module FileFilters {
  import opened Wrappers
  import Seqs

  /** `Extension` and `Description`; either may be null. */
  datatype FileFilter = FileFilter(extension: Option<string>, description: Option<string>)

  /** `string.Replace(c, "")`: every occurrence of `c` dropped, order kept. */
  function RemoveAll(s: string, c: char): (r: string)
    ensures c !in r
    ensures forall d :: d != c ==> multiset(r)[d] == multiset(s)[d]
    ensures c !in s ==> r == s
  {
    if s == [] then []
    else
      assert s == [s[0]] + s[1..];
      (if s[0] == c then [] else [s[0]]) + RemoveAll(s[1..], c)
  }

  /** Removal works piecewise, so the kept characters keep their order. */
  lemma {:induction false} RemoveAllAppend(a: string, b: string, c: char)
    ensures RemoveAll(a + b, c) == RemoveAll(a, c) + RemoveAll(b, c)
  {
    if a == [] {
      assert a + b == b;
    } else {
      assert (a + b)[0] == a[0];
      assert (a + b)[1..] == a[1..] + b;
      RemoveAllAppend(a[1..], b, c);
    }
  }

  /** `new FileFilter(extension)`: the extension is kept as given, stars
      included, and there is no description. */
  function FromExtension(extension: Option<string>): (f: FileFilter)
    ensures f.extension == extension && f.description.None?
  {
    FileFilter(extension, None)
  }

  /** `new FileFilter(extension, info)`: every `*` is stripped from the
      extension; a null extension makes `Replace` throw. */
  function FromExtensionAndInfo(extension: Option<string>, info: Option<string>): (r: Result<FileFilter>)
    ensures r.Failure? <==> extension.None?
    ensures r.Success? ==> r.value.description == info
    ensures r.Success? ==> r.value.extension.Some? && '*' !in r.value.extension.value
    ensures r.Success? ==> r.value.extension == Some(RemoveAll(extension.value, '*'))
  {
    match extension
    case None => Failure(NullReference)
    case Some(e) => Success(FileFilter(Some(RemoveAll(e, '*')), info))
  }

  /** String interpolation renders null as nothing. */
  function Text(s: Option<string>): string {
    match s
    case None => ""
    case Some(v) => v
  }

  /** The label half of one entry: `{Description} (*{Extension})`. */
  function Label(f: FileFilter): string {
    Text(f.description) + " (*" + Text(f.extension) + ")"
  }

  /** The pattern half of one entry: `*{Extension}`. */
  function Pattern(f: FileFilter): string {
    "*" + Text(f.extension)
  }

  /** One entry as `CreateFilter` appends it. */
  function Segment(f: FileFilter): string {
    Label(f) + "|" + Pattern(f) + "|"
  }

  /** The catch-all entry appended when `filterAll` is set. */
  const AllFiles := AllFilesLabel + "|" + AllFilesPattern
  const AllFilesLabel := "All files(*.*) "
  const AllFilesPattern := " *.*"

  /** The entries, one segment each, in input order. */
  function Segments(fs: seq<FileFilter>): string {
    if fs == [] then "" else Segment(fs[0]) + Segments(fs[1..])
  }

  /** Appending one more filter appends its segment: the order in which the
      loop of `CreateFilter` builds the string. */
  lemma {:induction false} SegmentsSnoc(fs: seq<FileFilter>, f: FileFilter)
    ensures Segments(fs + [f]) == Segments(fs) + Segment(f)
  {
    if fs == [] {
      assert [f][1..] == [];
    } else {
      assert (fs + [f])[1..] == fs[1..] + [f];
      SegmentsSnoc(fs[1..], f);
    }
  }

  /** `CreateFilter`; the catch-all entry is appended unless `filterAll` is
      turned off. */
  method CreateFilter(filters: seq<FileFilter>, filterAll: bool := true) returns (filter: string)
    ensures filter == Segments(filters) + (if filterAll then AllFiles else "")
    ensures filters == [] && !filterAll ==> filter == ""
  {
    filter := "";
    var i := 0;
    while i < |filters|
      invariant 0 <= i <= |filters|
      invariant filter == Segments(filters[..i])
    {
      SegmentsSnoc(filters[..i], filters[i]);
      assert filters[..i + 1] == filters[..i] + [filters[i]];
      filter := filter + Segment(filters[i]);
      i := i + 1;
    }
    assert filters[..i] == filters;
    if filterAll {
      filter := filter + AllFiles;
    }
  }

  /** Splitting on `|`, as a file dialog reads the filter string. */
  function Split(s: string): seq<string>
    decreases |s|
  {
    var i := Seqs.IndexOf(s, '|');
    if i < 0 then [s] else [s[..i]] + Split(s[i + 1..])
  }

  /** The label/pattern pairs the entries stand for. */
  function Fields(fs: seq<FileFilter>): seq<string> {
    if fs == [] then [] else [Label(fs[0]), Pattern(fs[0])] + Fields(fs[1..])
  }

  /** A piece free of `|` followed by `|` splits off as one field. */
  lemma SplitCons(a: string, rest: string)
    requires '|' !in a
    ensures Split(a + "|" + rest) == [a] + Split(rest)
  {
    var s := a + "|" + rest;
    assert s[|a|] == '|' && s[..|a|] == a;
    var i := Seqs.IndexOf(s, '|');
    assert forall k :: 0 <= k < |a| ==> s[k] == a[k];
    assert i == |a|;
    assert s[i + 1..] == rest;
  }

  /** No `|` inside any description or extension. */
  ghost predicate BarFree(fs: seq<FileFilter>) {
    forall f :: f in fs ==> '|' !in Text(f.description) && '|' !in Text(f.extension)
  }

  /** One entry splits into its label and its pattern. */
  lemma SplitSegment(f: FileFilter, rest: string)
    requires '|' !in Text(f.description) && '|' !in Text(f.extension)
    ensures Split(Segment(f) + rest) == [Label(f), Pattern(f)] + Split(rest)
  {
    assert '|' !in Label(f) && '|' !in Pattern(f);
    SplitPair(Label(f), Pattern(f), rest);
  }

  /** Two `|`-terminated pieces split off as two fields. */
  lemma SplitPair(a: string, b: string, rest: string)
    requires '|' !in a && '|' !in b
    ensures Split(a + "|" + b + "|" + rest) == [a, b] + Split(rest)
  {
    var t := b + "|" + rest;
    calc {
      Split(a + "|" + b + "|" + rest);
    == { BarJoin(a, b, rest); }
      Split(a + "|" + t);
    == { SplitCons(a, t); }
      [a] + Split(t);
    == { SplitCons(b, rest); }
      [a] + ([b] + Split(rest));
    == { assert [a] + [b] == [a, b]; }
      [a, b] + Split(rest);
    }
  }

  /** Joining three pieces with bars, regrouped. */
  lemma BarJoin(a: string, b: string, rest: string)
    ensures a + "|" + b + "|" + rest == a + "|" + (b + "|" + rest)
  {
  }

  /** Round trip: when no description or extension holds a `|`, splitting the
      output of `CreateFilter` gives back each filter's label and pattern in
      order, followed by `tail`'s own fields. */
  lemma {:induction false} SplitSegments(fs: seq<FileFilter>, tail: string)
    requires BarFree(fs)
    ensures Split(Segments(fs) + tail) == Fields(fs) + Split(tail)
  {
    if fs == [] {
      assert Segments(fs) + tail == tail;
    } else {
      assert BarFree(fs[1..]) by {
        forall g | g in fs[1..] ensures g in fs { }
      }
      SplitSegments(fs[1..], tail);
      var f := fs[0];
      assert f in fs;
      Seqs.AppendAssoc(Segment(f), Segments(fs[1..]), tail);
      SplitSegment(f, Segments(fs[1..]) + tail);
      Seqs.AppendAssoc([Label(f), Pattern(f)], Fields(fs[1..]), Split(tail));
    }
  }

  /** A piece free of `|` is a single field. */
  lemma SplitNoBar(s: string)
    requires '|' !in s
    ensures Split(s) == [s]
  {
    assert Seqs.IndexOf(s, '|') < 0;
  }

  /** The catch-all entry is one label and one pattern. */
  lemma SplitAllFiles()
    ensures Split(AllFiles) == [AllFilesLabel, AllFilesPattern]
  {
    SplitCons(AllFilesLabel, AllFilesPattern);
    SplitNoBar(AllFilesPattern);
  }

  /** Without the catch-all, the final `|` leaves one empty field. */
  lemma SplitEmpty()
    ensures Split("") == [""]
  {
    SplitNoBar("");
  }

  /** What a file dialog reads back from `CreateFilter`'s result. */
  lemma SplitCreateFilter(fs: seq<FileFilter>, filterAll: bool)
    requires BarFree(fs)
    ensures Split(Segments(fs) + (if filterAll then AllFiles else ""))
         == Fields(fs) + (if filterAll then ["All files(*.*) ", " *.*"] else [""])
  {
    SplitSegments(fs, if filterAll then AllFiles else "");
    SplitAllFiles();
    SplitEmpty();
  }
}
