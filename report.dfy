/**
 * The size report `Main` prints after scanning: one line per game folder,
 * largest first, with the name right-aligned, the platform label (looked up
 * from the folder's parent in the root dictionary) right-aligned and the
 * formatted size left-aligned, each column as wide as its widest entry.
 */
module Report {
  import opened Outcomes
  import opened Paths
  import opened GameRoots
  import ByteFormatter

  /** `GameInfo`: a game folder's name, its total size in bytes and its full path. */
  datatype Game = Game(name: string, sizeBytes: int, dirPath: Path)

  /** A printed line's columns; the percentage column is not modelled. */
  datatype Row = Row(name: string, platform: string, size: string)

  /** The exceptions that can end the report. */
  datatype ReportError =
    | NoGames                     // `Max` over an empty game array
    | NoPlatforms                 // `Max` over an empty dictionary
    | SizeOutOfRange(bytes: int)  // `ByteFormatter.Format` indexes past its table
    | NoParent(dirPath: Path)     // `GetParent` gives null
    | UnknownRoot(parent: Path)   // the parent is not a key of the root dictionary

  /** The lines printed before the report ended, and the exception it ended with, if any. */
  datatype Listing = Listing(rows: seq<Row>, error: Option<ReportError>)

  /** The three column widths `maxNameLength`, `maxPlatformLength` and `maxSizeLength`. */
  datatype Widths = Widths(name: int, platform: int, size: int)

  /** The `0.## unit` text of a formatter result, which is not modelled. */
  type Render = ByteFormatter.Scaled -> string

  // ---------------------------------------------------------------- padding

  function Spaces(n: nat): (r: string)
    ensures |r| == n && forall i | 0 <= i < n :: r[i] == ' '
  {
    seq(n, _ => ' ')
  }

  /** `string.PadLeft(width)`: spaces in front up to `width`; a longer string is kept whole. */
  function PadLeft(s: string, width: int): (r: string)
    ensures |r| == if |s| < width then width else |s|
    ensures r[|r| - |s|..] == s
    ensures forall i | 0 <= i < |r| - |s| :: r[i] == ' '
  {
    if |s| < width then Spaces(width - |s|) + s else s
  }

  /** `string.PadRight(width)`: spaces behind up to `width`; a longer string is kept whole. */
  function PadRight(s: string, width: int): (r: string)
    ensures |r| == if |s| < width then width else |s|
    ensures r[..|s|] == s
    ensures forall i | |s| <= i < |r| :: r[i] == ' '
  {
    if |s| < width then s + Spaces(width - |s|) else s
  }

  // ---------------------------------------------------------------- maxima

  /** `Enumerable.Max`: nothing for an empty sequence (the call throws), otherwise the largest element. */
  function MaxOf(xs: seq<int>): (r: Option<int>)
    ensures r.None? <==> xs == []
    ensures r.Some? ==> r.value in xs && forall x | x in xs :: x <= r.value
  {
    if xs == [] then None
    else
      var rest := MaxOf(xs[1..]);
      assert forall x | x in xs :: x == xs[0] || x in xs[1..];
      if rest.None? || rest.value < xs[0] then Some(xs[0]) else rest
  }

  function NameLengths(games: seq<Game>): (r: seq<int>)
    ensures |r| == |games| && forall i | 0 <= i < |games| :: r[i] == |games[i].name|
  {
    seq(|games|, i requires 0 <= i < |games| => |games[i].name|)
  }

  function PlatformLengths(roots: seq<GameRoot>): (r: seq<int>)
    ensures |r| == |roots| && forall i | 0 <= i < |roots| :: r[i] == |roots[i].platform|
  {
    seq(|roots|, i requires 0 <= i < |roots| => |roots[i].platform|)
  }

  function TextLengths(texts: seq<string>): (r: seq<int>)
    ensures |r| == |texts| && forall i | 0 <= i < |texts| :: r[i] == |texts[i]|
  {
    seq(|texts|, i requires 0 <= i < |texts| => |texts[i]|)
  }

  /**
   * The column widths: the longest name, the longest platform label of the
   * dictionary's entries, and the longest formatted size.
   */
  function ReportWidths(games: seq<Game>, roots: seq<GameRoot>, texts: seq<string>): Widths
    requires games != [] && roots != [] && |texts| == |games|
  {
    Widths(MaxOf(NameLengths(games)).value, MaxOf(PlatformLengths(roots)).value, MaxOf(TextLengths(texts)).value)
  }

  /** Every column is as wide as its widest entry, and some entry fills it. */
  lemma ReportWidthsAreMaxima(games: seq<Game>, roots: seq<GameRoot>, texts: seq<string>)
    requires games != [] && roots != [] && |texts| == |games|
    ensures var w := ReportWidths(games, roots, texts);
      && (forall g | g in games :: |g.name| <= w.name)
      && (exists g | g in games :: |g.name| == w.name)
      && (forall r | r in roots :: |r.platform| <= w.platform)
      && (exists r | r in roots :: |r.platform| == w.platform)
      && (forall t | t in texts :: |t| <= w.size)
      && (exists t | t in texts :: |t| == w.size)
  {
    var w := ReportWidths(games, roots, texts);
    var names, labels, sizes := NameLengths(games), PlatformLengths(roots), TextLengths(texts);
    forall g | g in games ensures |g.name| <= w.name {
      var i :| 0 <= i < |games| && games[i] == g;
      assert names[i] in names;
    }
    var a :| 0 <= a < |names| && names[a] == w.name;
    assert games[a] in games;
    forall r | r in roots ensures |r.platform| <= w.platform {
      var i :| 0 <= i < |roots| && roots[i] == r;
      assert labels[i] in labels;
    }
    var b :| 0 <= b < |labels| && labels[b] == w.platform;
    assert roots[b] in roots;
    forall t | t in texts ensures |t| <= w.size {
      var i :| 0 <= i < |texts| && texts[i] == t;
      assert sizes[i] in sizes;
    }
    var c :| 0 <= c < |sizes| && sizes[c] == w.size;
    assert texts[c] in texts;
  }

  // ---------------------------------------------------------------- ordering

  /** Places `g` behind every larger game and in front of the first one that is not larger. */
  function Insert(g: Game, s: seq<Game>): seq<Game> {
    if s == [] || s[0].sizeBytes <= g.sizeBytes then [g] + s
    else [s[0]] + Insert(g, s[1..])
  }

  /** `OrderByDescending(g => g.GameSizeBytes)`. */
  function SortBySizeDesc(games: seq<Game>): seq<Game> {
    if games == [] then [] else Insert(games[0], SortBySizeDesc(games[1..]))
  }

  predicate SortedBySizeDesc(s: seq<Game>) {
    forall i, j | 0 <= i < j < |s| :: s[i].sizeBytes >= s[j].sizeBytes
  }

  /** The games of size `n`, in order. */
  function WithSize(s: seq<Game>, n: int): seq<Game> {
    if s == [] then [] else (if s[0].sizeBytes == n then [s[0]] else []) + WithSize(s[1..], n)
  }

  /** Every game of `Insert(g, s)` is `g` or a game of `s`, each as often as before. */
  lemma {:induction false} InsertKeepsGames(g: Game, s: seq<Game>)
    ensures multiset(Insert(g, s)) == multiset{g} + multiset(s)
  {
    if s != [] && s[0].sizeBytes > g.sizeBytes {
      InsertKeepsGames(g, s[1..]);
      assert s == [s[0]] + s[1..];
    }
  }

  lemma ConsSorted(a: Game, t: seq<Game>)
    requires SortedBySizeDesc(t)
    requires forall k | 0 <= k < |t| :: t[k].sizeBytes <= a.sizeBytes
    ensures SortedBySizeDesc([a] + t)
  {
    var r := [a] + t;
    forall i, j | 0 <= i < j < |r| ensures r[i].sizeBytes >= r[j].sizeBytes {
      assert r[j] == t[j - 1];
      if i > 0 {
        assert r[i] == t[i - 1];
      }
    }
  }

  lemma {:induction false} InsertKeepsOrder(g: Game, s: seq<Game>)
    requires SortedBySizeDesc(s)
    ensures SortedBySizeDesc(Insert(g, s))
  {
    if s == [] || s[0].sizeBytes <= g.sizeBytes {
      ConsSorted(g, s);
    } else {
      var t := Insert(g, s[1..]);
      InsertKeepsOrder(g, s[1..]);
      InsertKeepsGames(g, s[1..]);
      forall k | 0 <= k < |t| ensures t[k].sizeBytes <= s[0].sizeBytes {
        assert t[k] in multiset(t);
        if t[k] != g {
          assert t[k] in multiset(s[1..]);
          var j :| 0 <= j < |s[1..]| && s[1..][j] == t[k];
          assert s[j + 1] == t[k];
        }
      }
      ConsSorted(s[0], t);
    }
  }

  /** The rows come out largest first, and they are exactly the games. */
  lemma {:induction false} SortOrdersAndKeepsGames(games: seq<Game>)
    ensures SortedBySizeDesc(SortBySizeDesc(games))
    ensures multiset(SortBySizeDesc(games)) == multiset(games)
  {
    if games != [] {
      SortOrdersAndKeepsGames(games[1..]);
      InsertKeepsOrder(games[0], SortBySizeDesc(games[1..]));
      InsertKeepsGames(games[0], SortBySizeDesc(games[1..]));
      assert games == [games[0]] + games[1..];
    }
  }

  lemma WithSizeCons(a: Game, t: seq<Game>, n: int)
    ensures WithSize([a] + t, n) == (if a.sizeBytes == n then [a] else []) + WithSize(t, n)
  {
    var r := [a] + t;
    assert r[0] == a && r[1..] == t;
  }

  lemma {:induction false} InsertWithSize(g: Game, s: seq<Game>, n: int)
    ensures WithSize(Insert(g, s), n) == (if g.sizeBytes == n then [g] else []) + WithSize(s, n)
  {
    if s == [] || s[0].sizeBytes <= g.sizeBytes {
      WithSizeCons(g, s, n);
    } else {
      var t := Insert(g, s[1..]);
      InsertWithSize(g, s[1..], n);
      WithSizeCons(s[0], t, n);
      WithSizeCons(s[0], s[1..], n);
      assert s == [s[0]] + s[1..];
      if g.sizeBytes == n {
        // s[0] is larger than g, so it is not of size n
        assert WithSize(Insert(g, s), n) == [g] + WithSize(s[1..], n);
      } else if s[0].sizeBytes == n {
        assert WithSize(Insert(g, s), n) == [s[0]] + WithSize(s[1..], n);
      } else {
        assert WithSize(Insert(g, s), n) == WithSize(s[1..], n);
      }
    }
  }

  /** Ties keep their original order: the sort is stable, as `OrderByDescending` is. */
  lemma {:induction false} SortIsStable(games: seq<Game>, n: int)
    ensures WithSize(SortBySizeDesc(games), n) == WithSize(games, n)
  {
    if games != [] {
      SortIsStable(games[1..], n);
      InsertWithSize(games[0], SortBySizeDesc(games[1..]), n);
    }
  }

  // ---------------------------------------------------------------- rows

  /** The formatted size of one game, or the formatter's failure. */
  function SizeText(g: Game, render: Render): Result<string, ReportError> {
    match ByteFormatter.ScaleOf(g.sizeBytes)
    case Ok(s) => Ok(render(s))
    case Err(_) => Err(SizeOutOfRange(g.sizeBytes))
  }

  /** `games.Max(g => g.GameSizeFormatted.Length)` formats every game in order; the first failure escapes. */
  function SizeTexts(games: seq<Game>, render: Render): (r: Result<seq<string>, ReportError>)
    ensures r.Ok? ==> |r.value| == |games|
  {
    if games == [] then Ok([])
    else match SizeText(games[0], render)
      case Err(e) => Err(e)
      case Ok(t) =>
        match SizeTexts(games[1..], render)
        case Err(e) => Err(e)
        case Ok(ts) => Ok([t] + ts)
  }

  /** Formatting every size succeeds exactly when all of them are below 1024^5. */
  lemma {:induction false} SizeTextsOk(games: seq<Game>, render: Render)
    ensures SizeTexts(games, render).Ok? <==> forall g | g in games :: g.sizeBytes < ByteFormatter.Pow1024(5)
  {
    if games != [] {
      SizeTextsOk(games[1..], render);
      ByteFormatter.FormatFailsIff(games[0].sizeBytes);
      assert forall g | g in games :: g == games[0] || g in games[1..];
    }
  }

  /** `gameRootDirs[Directory.GetParent(dirPath)?.FullName ?? throw ...]`. */
  function PlatformOf(g: Game, m: map<Path, string>): Result<string, ReportError> {
    match Parent(g.dirPath)
    case None => Err(NoParent(g.dirPath))
    case Some(p) => if p in m then Ok(m[p]) else Err(UnknownRoot(p))
  }

  /** The game's folder has a parent and the dictionary has it as a key. */
  predicate Resolves(g: Game, m: map<Path, string>) {
    Parent(g.dirPath).Some? && Parent(g.dirPath).value in m
  }

  /** One line of the loop: padded name, formatted and padded size, then the platform lookup. */
  function RowOf(g: Game, w: Widths, m: map<Path, string>, render: Render): Result<Row, ReportError> {
    match SizeText(g, render)
    case Err(e) => Err(e)
    case Ok(text) =>
      match PlatformOf(g, m)
      case Err(e) => Err(e)
      case Ok(platform) => Ok(Row(PadLeft(g.name, w.name), PadLeft(platform, w.platform), PadRight(text, w.size)))
  }

  /** Each sorted game's row, or the exception computing it throws. */
  function RowResults(sorted: seq<Game>, w: Widths, m: map<Path, string>, render: Render): (r: seq<Result<Row, ReportError>>)
    ensures |r| == |sorted| && forall i | 0 <= i < |sorted| :: r[i] == RowOf(sorted[i], w, m, render)
  {
    seq(|sorted|, i requires 0 <= i < |sorted| => RowOf(sorted[i], w, m, render))
  }

  /** The loop's output: lines are printed until the first one that throws. */
  function Collect(results: seq<Result<Row, ReportError>>): Listing {
    if results == [] then Listing([], None)
    else match results[0]
      case Err(e) => Listing([], Some(e))
      case Ok(row) =>
        var rest := Collect(results[1..]);
        Listing([row] + rest.rows, rest.error)
  }

  /** A row exists exactly when the size can be formatted and the parent is a key. */
  lemma RowOfOk(g: Game, w: Widths, m: map<Path, string>, render: Render)
    ensures RowOf(g, w, m, render).Ok? <==> g.sizeBytes < ByteFormatter.Pow1024(5) && Resolves(g, m)
  {
    ByteFormatter.FormatFailsIff(g.sizeBytes);
  }

  /**
   * The printed lines are the first rows in order; the loop stops at the
   * first row that throws, and that exception ends the report.
   */
  lemma {:induction false} CollectShape(results: seq<Result<Row, ReportError>>)
    ensures var l := Collect(results);
      && |l.rows| <= |results|
      && (forall i | 0 <= i < |l.rows| :: results[i] == Ok(l.rows[i]))
      && (l.error.None? ==> |l.rows| == |results|)
      && (l.error.Some? ==> |l.rows| < |results| && results[|l.rows|] == Err(l.error.value))
  {
    if results != [] && results[0].Ok? {
      var rest := Collect(results[1..]);
      CollectShape(results[1..]);
      var l := Collect(results);
      assert l == Listing([results[0].value] + rest.rows, rest.error);
      forall i | 0 <= i < |l.rows| ensures results[i] == Ok(l.rows[i]) {
        if i > 0 {
          assert l.rows[i] == rest.rows[i - 1] && results[i] == results[1..][i - 1];
        }
      }
      if l.error.Some? {
        assert results[|l.rows|] == results[1..][|rest.rows|];
      }
    }
  }

  /** `Main`'s report: the three maxima (lines 50-52), then the loop over the sorted games. */
  function ReportOf(games: seq<Game>, roots: seq<GameRoot>, render: Render): Listing {
    if games == [] then Listing([], Some(NoGames))
    else if roots == [] then Listing([], Some(NoPlatforms))
    else match SizeTexts(games, render)
      case Err(e) => Listing([], Some(e))
      case Ok(texts) => Collect(RowResults(SortBySizeDesc(games), ReportWidths(games, roots, texts), RootMap(roots), render))
  }

  /**
   * The report as the program runs it: the widths first, then one line per
   * game in size order, formatting each size and looking up each platform.
   */
  method PrintReport(games: seq<Game>, roots: seq<GameRoot>, render: Render)
    returns (rows: seq<Row>, error: Option<ReportError>)
    ensures Listing(rows, error) == ReportOf(games, roots, render)
  {
    if games == [] {
      return [], Some(NoGames);
    }
    if roots == [] {
      return [], Some(NoPlatforms);
    }
    var texts := SizeTexts(games, render);
    if texts.Err? {
      return [], Some(texts.error);
    }
    var w := ReportWidths(games, roots, texts.value);
    rows, error := PrintRows(SortBySizeDesc(games), w, RootMap(roots), render);
  }

  /** The `foreach` over the sorted games, printing each row until one throws. */
  method PrintRows(sorted: seq<Game>, w: Widths, m: map<Path, string>, render: Render)
    returns (rows: seq<Row>, error: Option<ReportError>)
    ensures Listing(rows, error) == Collect(RowResults(sorted, w, m, render))
  {
    ghost var results := RowResults(sorted, w, m, render);
    rows := [];
    var i := 0;
    while i < |sorted|
      invariant 0 <= i <= |sorted|
      invariant Collect(results) == Listing(rows + Collect(results[i..]).rows, Collect(results[i..]).error)
    {
      ghost var rest := Collect(results[i + 1..]);
      assert results[i..][0] == results[i] && results[i..][1..] == results[i + 1..];
      var row := PrintRow(sorted[i], w, m, render);
      if row.Err? {
        assert Collect(results[i..]) == Listing([], Some(row.error));
        return rows, Some(row.error);
      }
      assert Collect(results[i..]) == Listing([row.value] + rest.rows, rest.error);
      assert rows + ([row.value] + rest.rows) == (rows + [row.value]) + rest.rows;
      rows := rows + [row.value];
      i := i + 1;
    }
    return rows, None;
  }

  /** One pass of the loop body: format the size, find the parent, look up its platform. */
  method PrintRow(g: Game, w: Widths, m: map<Path, string>, render: Render) returns (r: Result<Row, ReportError>)
    ensures r == RowOf(g, w, m, render)
  {
    var scaled := ByteFormatter.Format(g.sizeBytes);
    if scaled.Err? {
      return Err(SizeOutOfRange(g.sizeBytes));
    }
    var parent := Parent(g.dirPath);
    if parent.None? {
      return Err(NoParent(g.dirPath));
    }
    if parent.value !in m {
      return Err(UnknownRoot(parent.value));
    }
    return Ok(Row(PadLeft(g.name, w.name), PadLeft(m[parent.value], w.platform), PadRight(render(scaled.value), w.size)));
  }

  // ---------------------------------------------------------------- properties

  /** With no games, `Max` throws before any line is printed. */
  lemma EmptyReportThrows(roots: seq<GameRoot>, render: Render)
    ensures ReportOf([], roots, render) == Listing([], Some(NoGames))
  {
  }

  /**
   * The report completes exactly when there is a game, a platform, every
   * size can be formatted and every game's parent is a key; it then prints
   * one line per game.
   */
  lemma ReportCompletesIff(games: seq<Game>, roots: seq<GameRoot>, render: Render)
    ensures var l := ReportOf(games, roots, render);
      && (l.error.None? <==>
            && games != [] && roots != []
            && forall g | g in games :: g.sizeBytes < ByteFormatter.Pow1024(5) && Resolves(g, RootMap(roots)))
      && (l.error.None? ==> |l.rows| == |games|)
  {
    if games != [] && roots != [] {
      SizeTextsOk(games, render);
      if SizeTexts(games, render).Ok? {
        var w, m := ReportWidths(games, roots, SizeTexts(games, render).value), RootMap(roots);
        assert ReportOf(games, roots, render) == Collect(RowResults(SortBySizeDesc(games), w, m, render));
        SortedRowsCompleteIff(games, w, m, render);
        forall g | g in games ensures RowOf(g, w, m, render).Ok? <==> g.sizeBytes < ByteFormatter.Pow1024(5) && Resolves(g, m) {
          RowOfOk(g, w, m, render);
        }
      }
    }
  }

  /** The loop over the sorted games prints every game's line exactly when no game's row throws. */
  lemma SortedRowsCompleteIff(games: seq<Game>, w: Widths, m: map<Path, string>, render: Render)
    ensures var l := Collect(RowResults(SortBySizeDesc(games), w, m, render));
      && (l.error.None? <==> forall g | g in games :: RowOf(g, w, m, render).Ok?)
      && (l.error.None? ==> |l.rows| == |games|)
  {
    var sorted := SortBySizeDesc(games);
    var results := RowResults(sorted, w, m, render);
    CollectShape(results);
    SortOrdersAndKeepsGames(games);
    assert |sorted| == |games| by {
      assert |multiset(sorted)| == |multiset(games)|;
    }
    var l := Collect(results);
    if l.error.Some? {
      var bad := sorted[|l.rows|];
      assert results[|l.rows|] == RowOf(bad, w, m, render);
      assert bad in multiset(games);
    } else {
      forall g | g in games ensures RowOf(g, w, m, render).Ok? {
        assert g in multiset(sorted);
        var k :| 0 <= k < |sorted| && sorted[k] == g;
        assert results[k] == RowOf(g, w, m, render);
      }
    }
  }

  /** A row pads its name and platform on the left and its size on the right, to the column widths. */
  lemma RowLayout(g: Game, w: Widths, m: map<Path, string>, render: Render)
    requires RowOf(g, w, m, render).Ok?
    requires |g.name| <= w.name
    requires ByteFormatter.ScaleOf(g.sizeBytes).Ok? && |render(ByteFormatter.ScaleOf(g.sizeBytes).value)| <= w.size
    requires Resolves(g, m) && |m[Parent(g.dirPath).value]| <= w.platform
    ensures var row := RowOf(g, w, m, render).value;
      var text := render(ByteFormatter.ScaleOf(g.sizeBytes).value);
      var platform := m[Parent(g.dirPath).value];
      && |row.name| == w.name && row.name[w.name - |g.name|..] == g.name
      && |row.size| == w.size && row.size[..|text|] == text
      && |row.platform| == w.platform && row.platform[w.platform - |platform|..] == platform
  {
  }

  /**
   * Line `i` is the row of the `i`-th game in size order, and that game's
   * name, size text and platform label all fit their columns.
   */
  lemma ReportRowSource(games: seq<Game>, roots: seq<GameRoot>, render: Render, i: nat)
    requires games != [] && roots != [] && SizeTexts(games, render).Ok?
    requires i < |ReportOf(games, roots, render).rows|
    ensures var w := ReportWidths(games, roots, SizeTexts(games, render).value);
      var m := RootMap(roots);
      var sorted := SortBySizeDesc(games);
      && i < |sorted|
      && var g := sorted[i];
      && RowOf(g, w, m, render) == Ok(ReportOf(games, roots, render).rows[i])
      && |g.name| <= w.name
      && ByteFormatter.ScaleOf(g.sizeBytes).Ok? && |render(ByteFormatter.ScaleOf(g.sizeBytes).value)| <= w.size
      && Resolves(g, m) && |m[Parent(g.dirPath).value]| <= w.platform
  {
    var texts := SizeTexts(games, render).value;
    var w, m := ReportWidths(games, roots, texts), RootMap(roots);
    var sorted := SortBySizeDesc(games);
    var results := RowResults(sorted, w, m, render);
    assert ReportOf(games, roots, render) == Collect(results);
    CollectShape(results);
    var g := sorted[i];
    assert results[i] == RowOf(g, w, m, render);
    RowOfOk(g, w, m, render);
    SortOrdersAndKeepsGames(games);
    assert g in multiset(games);
    var k :| 0 <= k < |games| && games[k] == g;
    SizeTextsValues(games, render);
    GameFitsColumns(games, roots, texts, k);
    PlatformFits(roots, Parent(g.dirPath).value);
  }

  /**
   * Line `i` is the `i`-th largest game's: its name right-aligned to the
   * widest name, its size text left-aligned to the widest size, its platform
   * label right-aligned to the widest label.
   */
  lemma ReportRowLayout(games: seq<Game>, roots: seq<GameRoot>, render: Render, i: nat)
    requires games != [] && roots != [] && SizeTexts(games, render).Ok?
    requires i < |ReportOf(games, roots, render).rows|
    ensures var w := ReportWidths(games, roots, SizeTexts(games, render).value);
      var m := RootMap(roots);
      var sorted := SortBySizeDesc(games);
      && i < |sorted|
      && var g := sorted[i];
      && var row := ReportOf(games, roots, render).rows[i];
      && ByteFormatter.ScaleOf(g.sizeBytes).Ok? && Resolves(g, m)
      && var text := render(ByteFormatter.ScaleOf(g.sizeBytes).value);
      && var platform := m[Parent(g.dirPath).value];
      && |g.name| <= w.name && |row.name| == w.name && row.name[w.name - |g.name|..] == g.name
      && |text| <= w.size && |row.size| == w.size && row.size[..|text|] == text
      && |platform| <= w.platform && |row.platform| == w.platform
      && row.platform[w.platform - |platform|..] == platform
  {
    ReportRowSource(games, roots, render, i);
    var w := ReportWidths(games, roots, SizeTexts(games, render).value);
    RowLayout(SortBySizeDesc(games)[i], w, RootMap(roots), render);
  }

  /** The `k`-th game's name and size text fit their columns. */
  lemma GameFitsColumns(games: seq<Game>, roots: seq<GameRoot>, texts: seq<string>, k: nat)
    requires games != [] && roots != [] && |texts| == |games| && k < |games|
    ensures |games[k].name| <= ReportWidths(games, roots, texts).name
    ensures |texts[k]| <= ReportWidths(games, roots, texts).size
  {
    assert NameLengths(games)[k] in NameLengths(games);
    assert TextLengths(texts)[k] in TextLengths(texts);
  }

  /** A platform found in the dictionary fits the platform column. */
  lemma PlatformFits(roots: seq<GameRoot>, p: Path)
    requires roots != [] && p in RootMap(roots)
    ensures |RootMap(roots)[p]| <= MaxOf(PlatformLengths(roots)).value
  {
    RootMapValue(roots, p);
    var j :| 0 <= j < |roots| && roots[j].path == p && roots[j].platform == RootMap(roots)[p];
    assert PlatformLengths(roots)[j] in PlatformLengths(roots);
  }

  /** The texts measured for the size column are the rendered sizes of the games, in order. */
  lemma {:induction false} SizeTextsValues(games: seq<Game>, render: Render)
    requires SizeTexts(games, render).Ok?
    ensures forall k | 0 <= k < |games| ::
      ByteFormatter.ScaleOf(games[k].sizeBytes).Ok?
      && SizeTexts(games, render).value[k] == render(ByteFormatter.ScaleOf(games[k].sizeBytes).value)
  {
    if games != [] {
      SizeTextsValues(games[1..], render);
    }
  }

  /** A folder listed under an existing root is a child of it, so its parent is a key. */
  lemma ScannedGamesResolve(games: seq<Game>, roots: seq<GameRoot>)
    requires forall g | g in games :: exists r | r in roots :: r.path != [] && IsChildOf(r.path, g.dirPath)
    ensures forall g | g in games :: Resolves(g, RootMap(roots))
  {
    forall g | g in games ensures Resolves(g, RootMap(roots)) {
      var r :| r in roots && r.path != [] && IsChildOf(r.path, g.dirPath);
      ParentOfChild(r.path, g.dirPath);
      var i :| 0 <= i < |roots| && roots[i] == r;
    }
  }

  /** In the program's own table, a folder listed under a root gets that root's platform. */
  lemma ScannedGamePlatform(g: Game, j: nat)
    requires j < |GameRootDirectories()| && IsChildOf(GameRootDirectories()[j].path, g.dirPath)
    ensures PlatformOf(g, RootMap(GameRootDirectories())) == Ok(GameRootDirectories()[j].platform)
  {
    var roots := GameRootDirectories();
    assert roots[j].path != [];
    ParentOfChild(roots[j].path, g.dirPath);
    CsRootsDistinct();
    RootMapLookup(roots, j);
  }

  /**
   * When every game was found by listing one of the program's roots and no
   * size reaches 1024^5, the report prints a line for every game.
   */
  lemma ScannedReportCompletes(games: seq<Game>, render: Render)
    requires games != []
    requires forall g | g in games :: g.sizeBytes < ByteFormatter.Pow1024(5)
    requires forall g | g in games :: exists r | r in GameRootDirectories() :: IsChildOf(r.path, g.dirPath)
    ensures ReportOf(games, GameRootDirectories(), render).error == None
    ensures |ReportOf(games, GameRootDirectories(), render).rows| == |games|
  {
    var roots := GameRootDirectories();
    forall g | g in games ensures exists r | r in roots :: r.path != [] && IsChildOf(r.path, g.dirPath) {
      var r :| r in roots && IsChildOf(r.path, g.dirPath);
      assert r.path != [];
    }
    ScannedGamesResolve(games, roots);
    ReportCompletesIff(games, roots, render);
  }
}
