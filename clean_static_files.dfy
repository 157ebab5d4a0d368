/**
  The deletion decision of `scripts/clean_static_files.py`: which files of
  the static-file bucket are old enough to delete, which names are still
  reachable (committed to a repository, generated by the build, or a live
  subreddit stylesheet), and which names a configured prefix protects.

  The bucket listing, the git listings, the build's name table, the
  subreddit query and the configuration are inputs; the deletions are the
  method's output, in the order they are issued.
 */
module CleanStaticFiles {
  import opened Wrappers
  import opened Text
  import opened UrlUtils

  // ---------------------------------------------------------------------
  // get_mature_files_on_s3

  /** A key of the bucket, with its last-modified time in microseconds (UTC). */
  datatype S3Key = S3Key(name: string, lastModified: int)

  /** `datetime.timedelta(days=1)` in microseconds. */
  const OneDay: int := 86_400_000_000

  predicate Mature(key: S3Key, now: int)
  {
    key.lastModified < now - OneDay
  }

  /** The map `get_mature_files_on_s3` builds from the first keys of the listing. */
  function MatureMap(keys: seq<S3Key>, now: int): (r: map<string, S3Key>)
    ensures forall n :: n in r ==> r[n].name == n && r[n] in keys && Mature(r[n], now)
    ensures forall i :: 0 <= i < |keys| && Mature(keys[i], now) ==> keys[i].name in r
  {
    if |keys| == 0 then map[]
    else
      var prev := MatureMap(keys[..|keys| - 1], now);
      var last := keys[|keys| - 1];
      assert forall i :: 0 <= i < |keys| - 1 ==> keys[i] == keys[..|keys| - 1][i];
      if Mature(last, now) then prev[last.name := last] else prev
  }

  /**
    `get_mature_files_on_s3`: the keys last modified strictly more than one
    day before `now`, by name.
   */
  method MatureFiles(keys: seq<S3Key>, now: int) returns (remote: map<string, S3Key>)
    ensures remote == MatureMap(keys, now)
    ensures forall n :: n in remote ==> remote[n].name == n && remote[n] in keys && Mature(remote[n], now)
    ensures forall i :: 0 <= i < |keys| && Mature(keys[i], now) ==> keys[i].name in remote
    ensures forall i :: 0 <= i < |keys| && !Mature(keys[i], now) && keys[i].name in remote ==>
      remote[keys[i].name] != keys[i]
  {
    var minimumBirthdate := now - OneDay;
    remote := map[];
    for i := 0 to |keys|
      invariant remote == MatureMap(keys[..i], now)
    {
      assert keys[..i + 1][..i] == keys[..i];
      if keys[i].lastModified < minimumBirthdate {
        remote := remote[keys[i].name := keys[i]];
      }
    }
    assert keys[..|keys|] == keys;
  }

  // ---------------------------------------------------------------------
  // _get_repo_source_static_files

  /** The longest common prefix of two strings. */
  function PairPrefix(a: string, b: string): (p: string)
    ensures p <= a && p <= b
  {
    if |a| == 0 || |b| == 0 || a[0] != b[0] then ""
    else [a[0]] + PairPrefix(a[1..], b[1..])
  }

  /** Every common prefix of two strings is a prefix of `PairPrefix`. */
  lemma {:induction false} PairPrefixLongest(a: string, b: string, q: string)
    requires q <= a && q <= b
    ensures q <= PairPrefix(a, b)
  {
    if |q| > 0 {
      assert q[1..] <= a[1..] && q[1..] <= b[1..];
      PairPrefixLongest(a[1..], b[1..], q[1..]);
      assert q == [a[0]] + q[1..];
    }
  }

  /** `os.path.commonprefix`: a prefix shared by every path; "" for no paths. */
  function CommonPrefix(paths: seq<string>): (p: string)
    ensures forall i :: 0 <= i < |paths| ==> p <= paths[i]
    ensures |paths| == 0 ==> p == ""
  {
    if |paths| == 0 then ""
    else if |paths| == 1 then paths[0]
    else
      var rest := CommonPrefix(paths[1..]);
      assert forall i :: 1 <= i < |paths| ==> rest <= paths[1..][i - 1] == paths[i];
      PairPrefix(paths[0], rest)
  }

  /** `CommonPrefix` is the longest: every prefix shared by all the paths is a prefix of it. */
  lemma {:induction false} CommonPrefixLongest(paths: seq<string>, q: string)
    requires |paths| > 0
    requires forall i :: 0 <= i < |paths| ==> q <= paths[i]
    ensures q <= CommonPrefix(paths)
  {
    if |paths| > 1 {
      assert forall i :: 0 <= i < |paths[1..]| ==> q <= paths[1..][i] by {
        assert forall i :: 0 <= i < |paths[1..]| ==> paths[1..][i] == paths[i + 1];
      }
      CommonPrefixLongest(paths[1..], q);
      PairPrefixLongest(paths[0], CommonPrefix(paths[1..]), q);
    }
  }

  /**
    `_get_repo_source_static_files`: nothing when the static directory cannot
    be entered (None); otherwise each listed path, in order, without the
    common prefix of the whole listing.
   */
  function RepoStaticFiles(listing: Option<seq<string>>): (r: seq<string>)
    ensures listing.None? ==> r == []
    ensures listing.Some? ==> |r| == |listing.value|
    ensures listing.Some? ==> forall i :: 0 <= i < |r| ==> CommonPrefix(listing.value) + r[i] == listing.value[i]
  {
    match listing
    case None => []
    case Some(paths) =>
      var prefix := CommonPrefix(paths);
      seq(|paths|, i requires 0 <= i < |paths| => paths[i][|prefix|..])
  }

  /** `get_source_static_files`: the core repository's files, then each plugin's, in plugin order. */
  function SourceStaticFiles(core: Option<seq<string>>, plugins: seq<Option<seq<string>>>): (r: seq<string>)
    ensures RepoStaticFiles(core) <= r
    ensures forall i :: 0 <= i < |plugins| ==> forall x :: x in RepoStaticFiles(plugins[i]) ==> x in r
  {
    if |plugins| == 0 then RepoStaticFiles(core)
    else
      var prev := SourceStaticFiles(core, plugins[..|plugins| - 1]);
      assert forall i :: 0 <= i < |plugins| - 1 ==> plugins[i] == plugins[..|plugins| - 1][i];
      prev + RepoStaticFiles(plugins[|plugins| - 1])
  }

  /** A source static file is one of the core repository's or one of some plugin's, and nothing else. */
  lemma {:induction false} SourceStaticFilesMembers(core: Option<seq<string>>, plugins: seq<Option<seq<string>>>)
    ensures forall x :: x in SourceStaticFiles(core, plugins) <==>
      x in RepoStaticFiles(core) || exists i :: 0 <= i < |plugins| && x in RepoStaticFiles(plugins[i])
  {
    if |plugins| > 0 {
      var init := plugins[..|plugins| - 1];
      SourceStaticFilesMembers(core, init);
      forall x | exists i :: 0 <= i < |plugins| && x in RepoStaticFiles(plugins[i])
        ensures x in SourceStaticFiles(core, plugins)
      {
      }
      forall x | x in SourceStaticFiles(core, init) && !(x in RepoStaticFiles(core))
        ensures exists i :: 0 <= i < |plugins| && x in RepoStaticFiles(plugins[i])
      {
        var i :| 0 <= i < |init| && x in RepoStaticFiles(init[i]);
        assert init[i] == plugins[i];
      }
    }
  }

  /**
    Plugin order: plugin `k`'s files follow, without a gap, those of the core
    repository and of the plugins before it.
   */
  lemma {:induction false} SourceStaticFilesOrder(core: Option<seq<string>>, plugins: seq<Option<seq<string>>>, k: nat)
    requires k < |plugins|
    ensures SourceStaticFiles(core, plugins[..k]) + RepoStaticFiles(plugins[k]) <= SourceStaticFiles(core, plugins)
    decreases |plugins|
  {
    var init := plugins[..|plugins| - 1];
    if k == |plugins| - 1 {
      assert plugins[..k] == init;
    } else {
      assert init[..k] == plugins[..k] && init[k] == plugins[k];
      SourceStaticFilesOrder(core, init, k);
    }
  }

  // ---------------------------------------------------------------------
  // get_generated_static_files

  /**
    The extension `os.path.splitext` finds: from the last dot of the last
    path segment, unless only dots come before that dot in the segment.
   */
  function SplitExt(name: string): (r: string)
    ensures r != "" ==> r[0] == '.' && '.' in LastSegment(name)
  {
    var pieces := Split(LastSegment(name), '.');
    if |pieces| == 1 then ""
    else if forall i :: 0 <= i < |pieces| - 1 ==> pieces[i] == "" then ""
    else "." + Last(pieces)
  }

  /**
    Where the last segment does not start with a dot, `splitext` agrees with
    `path_extension` (with the dot kept); a segment without a dot has no extension.
   */
  lemma SplitExtCases(name: string)
    ensures '.' !in LastSegment(name) ==> SplitExt(name) == ""
    ensures var f := LastSegment(name);
      '.' in f && f[0] != '.' ==> SplitExt(name) == "." + PathExtension(name)
  {
    var f := LastSegment(name);
    if '.' in f && f[0] != '.' {
      SplitFirst(f, '.');
    }
  }

  /** A built file that is also served compressed. */
  predicate Compressed(filename: string)
  {
    var ext := SplitExt(filename);
    ext == ".css" || ext == ".js"
  }

  /** What `get_generated_static_files` yields for one entry of the name table. */
  function Expansion(entry: (string, string)): (r: seq<string>)
  {
    var (filename, mangled) := entry;
    if Compressed(filename) then [filename, mangled, filename + ".gzip", mangled + ".gzip"]
    else [filename, mangled]
  }

  predicate Yields(entry: (string, string), x: string)
  {
    x == entry.0 || x == entry.1 ||
    (Compressed(entry.0) && (x == entry.0 + ".gzip" || x == entry.1 + ".gzip"))
  }

  /** `get_generated_static_files` over the build's name table, in table order. */
  function GeneratedStaticFiles(staticNames: seq<(string, string)>): (r: seq<string>)
    ensures 2 * |staticNames| <= |r| <= 4 * |staticNames|
  {
    if |staticNames| == 0 then []
    else GeneratedStaticFiles(staticNames[..|staticNames| - 1]) + Expansion(staticNames[|staticNames| - 1])
  }

  /**
    A generated name is a file name or mangled name of the table, or the
    `.gzip` variant of one whose file name ends in `.css` or `.js`; and every
    such name is generated.
   */
  lemma {:induction false} GeneratedNames(staticNames: seq<(string, string)>, x: string)
    ensures x in GeneratedStaticFiles(staticNames) <==> exists i :: 0 <= i < |staticNames| && Yields(staticNames[i], x)
    decreases |staticNames|
  {
    if |staticNames| > 0 {
      var init := staticNames[..|staticNames| - 1];
      var last := staticNames[|staticNames| - 1];
      assert x in GeneratedStaticFiles(staticNames) <==> x in GeneratedStaticFiles(init) || x in Expansion(last);
      GeneratedNames(init, x);
      ExpansionYields(last, x);
      var entryYields := e => Yields(e, x);
      SomeElement(staticNames, init, entryYields);
      assert (exists i :: 0 <= i < |staticNames| && Yields(staticNames[i], x)) <==>
        (exists i :: 0 <= i < |staticNames| && entryYields(staticNames[i]));
      assert (exists i :: 0 <= i < |init| && Yields(init[i], x)) <==>
        (exists i :: 0 <= i < |init| && entryYields(init[i]));
    }
  }

  /** Some element satisfies `p` exactly when an earlier element or the last one does. */
  lemma SomeElement<T>(xs: seq<T>, init: seq<T>, p: T -> bool)
    requires |xs| > 0 && init == xs[..|xs| - 1]
    ensures (exists i :: 0 <= i < |xs| && p(xs[i])) <==> (exists i :: 0 <= i < |init| && p(init[i])) || p(xs[|xs| - 1])
  {
    var n := |init|;
    if i :| 0 <= i < |xs| && p(xs[i]) {
      if i < n {
        assert init[i] == xs[i];
      }
    }
    if i :| 0 <= i < n && p(init[i]) {
      assert init[i] == xs[i];
    }
  }

  lemma ExpansionYields(entry: (string, string), x: string)
    ensures x in Expansion(entry) <==> Yields(entry, x)
  {
  }

  // ---------------------------------------------------------------------
  // get_live_subreddit_stylesheets

  datatype Subreddit = Subreddit(stylesheetIsStatic: bool, staticStylesheetName: string)

  /** `get_live_subreddit_stylesheets` over the subreddits in query order. */
  function LiveStylesheets(subreddits: seq<Subreddit>): (r: seq<string>)
    ensures |r| <= |subreddits|
  {
    if |subreddits| == 0 then []
    else
      var rest := LiveStylesheets(subreddits[1..]);
      if subreddits[0].stylesheetIsStatic then [subreddits[0].staticStylesheetName] + rest else rest
  }

  /** A stylesheet name is live exactly when some subreddit with a static stylesheet has it. */
  lemma {:induction false} LiveStylesheetNames(subreddits: seq<Subreddit>, x: string)
    ensures x in LiveStylesheets(subreddits) <==>
      exists i :: 0 <= i < |subreddits| && subreddits[i].stylesheetIsStatic && subreddits[i].staticStylesheetName == x
  {
    if |subreddits| > 0 {
      LiveStylesheetNames(subreddits[1..], x);
      if x in LiveStylesheets(subreddits[1..]) {
        var i :| 0 <= i < |subreddits[1..]| && subreddits[1..][i].stylesheetIsStatic && subreddits[1..][i].staticStylesheetName == x;
        assert subreddits[i + 1] == subreddits[1..][i];
      }
      forall i | 1 <= i < |subreddits| && subreddits[i].stylesheetIsStatic && subreddits[i].staticStylesheetName == x
        ensures x in LiveStylesheets(subreddits[1..])
      {
        assert subreddits[1..][i - 1] == subreddits[i];
      }
    }
  }

  // ---------------------------------------------------------------------
  // clean_static_files

  /**
    `tuple(p.strip() for p in value.split(","))`: one prefix per
    comma-separated piece, in order, which is that piece without its
    surrounding white space; no prefix holds a comma or starts or ends
    with white space.
   */
  function IgnoredPrefixes(value: string): (r: seq<string>)
    ensures |r| == |Split(value, ',')| >= 1
    ensures forall i :: 0 <= i < |r| ==> r[i] == Strip(Split(value, ',')[i])
    ensures forall i :: 0 <= i < |r| ==> ',' !in r[i]
    ensures forall i :: 0 <= i < |r| && |r[i]| > 0 ==> !IsSpace(r[i][0]) && !IsSpace(r[i][|r[i]| - 1])
  {
    var pieces := Split(value, ',');
    var r := seq(|pieces|, i requires 0 <= i < |pieces| => Strip(pieces[i]));
    SplitPiecesFree(value, ',');
    StripEach(pieces, ',', r);
    r
  }

  /** Stripping each of some strings free of `c` leaves them free of `c`, with no white space at either end. */
  lemma StripEach(pieces: seq<string>, c: char, r: seq<string>)
    requires forall i :: 0 <= i < |pieces| ==> c !in pieces[i]
    requires |r| == |pieces| && forall i :: 0 <= i < |r| ==> r[i] == Strip(pieces[i])
    ensures forall i :: 0 <= i < |r| ==> c !in r[i]
    ensures forall i :: 0 <= i < |r| && |r[i]| > 0 ==> !IsSpace(r[i][0]) && !IsSpace(r[i][|r[i]| - 1])
  {
    forall i | 0 <= i < |r|
      ensures c !in r[i]
      ensures |r[i]| > 0 ==> !IsSpace(r[i][0]) && !IsSpace(r[i][|r[i]| - 1])
    {
      StripInside(pieces[i]);
    }
  }

  /** `strip` keeps a run of the string's own characters, which neither starts nor ends with white space. */
  lemma StripInside(s: string)
    ensures forall ch :: ch in Strip(s) ==> ch in s
    ensures |Strip(s)| > 0 ==> !IsSpace(Strip(s)[0]) && !IsSpace(Strip(s)[|Strip(s)| - 1])
  {
    var l := LStripSpace(s);
    var r := RStripSpace(l);
    var k := |s| - |l|;
    forall ch | ch in r
      ensures ch in s
    {
      var j :| 0 <= j < |r| && r[j] == ch;
      assert r[j] == l[j] == s[k + j];
    }
    if |r| > 0 {
      assert r[0] == l[0];
    }
  }

  /** `name.startswith(prefixes)` for a tuple of prefixes. */
  predicate Ignored(name: string, prefixes: seq<string>)
  {
    exists i :: 0 <= i < |prefixes| && prefixes[i] <= name
  }

  /** Every name that the scripts' three sources call reachable, in the order they are chained. */
  function Reachable(core: Option<seq<string>>, plugins: seq<Option<seq<string>>>,
                     staticNames: seq<(string, string)>, subreddits: seq<Subreddit>): seq<string>
  {
    SourceStaticFiles(core, plugins) + GeneratedStaticFiles(staticNames) + LiveStylesheets(subreddits)
  }

  /**
    `clean_static_files`: the configuration must name the ignored prefixes
    (a KeyError before anything is deleted otherwise); the mature files lose
    every reachable name, and each remaining file whose name no ignored
    prefix starts is deleted, once, in whatever order the map yields them.
   */
  method Clean(keys: seq<S3Key>, now: int, config: map<string, string>, reachable: seq<string>)
    returns (deleted: seq<string>)
    ensures "ignored_prefixes" !in config ==> deleted == []
    ensures "ignored_prefixes" in config ==>
      var prefixes := IgnoredPrefixes(config["ignored_prefixes"]);
      forall n :: n in deleted <==> n in MatureMap(keys, now) && n !in reachable && !Ignored(n, prefixes)
    ensures forall i, j :: 0 <= i < j < |deleted| ==> deleted[i] != deleted[j]
  {
    deleted := [];
    if "ignored_prefixes" !in config {
      return;
    }
    var ignoredPrefixes := IgnoredPrefixes(config["ignored_prefixes"]);
    var condemned := MatureFiles(keys, now);
    for i := 0 to |reachable|
      invariant forall n :: n in condemned <==> n in MatureMap(keys, now) && n !in reachable[..i]
    {
      assert reachable[..i + 1] == reachable[..i] + [reachable[i]];
      if reachable[i] in condemned {
        condemned := condemned - {reachable[i]};
      }
    }
    assert reachable[..|reachable|] == reachable;
    var remaining := condemned.Keys;
    while remaining != {}
      invariant remaining <= condemned.Keys
      invariant forall n :: n in deleted <==> n in condemned.Keys - remaining && !Ignored(n, ignoredPrefixes)
      invariant forall i, j :: 0 <= i < j < |deleted| ==> deleted[i] != deleted[j]
      decreases |remaining|
    {
      var filename :| filename in remaining;
      if !Ignored(filename, ignoredPrefixes) {
        deleted := deleted + [filename];
      }
      remaining := remaining - {filename};
    }
  }

  /**
    The whole script: nothing reachable and nothing under an ignored prefix
    is ever deleted, and every mature file that is neither is.
   */
  method CleanStaticFiles(keys: seq<S3Key>, now: int, config: map<string, string>,
                          core: Option<seq<string>>, plugins: seq<Option<seq<string>>>,
                          staticNames: seq<(string, string)>, subreddits: seq<Subreddit>)
    returns (deleted: seq<string>)
    ensures forall n :: n in deleted ==> n !in SourceStaticFiles(core, plugins)
    ensures forall n :: n in deleted ==> forall i :: 0 <= i < |staticNames| ==> !Yields(staticNames[i], n)
    ensures forall n :: n in deleted ==>
      forall i :: 0 <= i < |subreddits| && subreddits[i].stylesheetIsStatic ==> subreddits[i].staticStylesheetName != n
    ensures "ignored_prefixes" in config ==>
      var prefixes := IgnoredPrefixes(config["ignored_prefixes"]);
      forall n :: n in deleted <==>
        n in MatureMap(keys, now) && n !in Reachable(core, plugins, staticNames, subreddits) && !Ignored(n, prefixes)
    ensures forall i, j :: 0 <= i < j < |deleted| ==> deleted[i] != deleted[j]
  {
    var reachable := Reachable(core, plugins, staticNames, subreddits);
    deleted := Clean(keys, now, config, reachable);
    forall n | n in deleted
      ensures forall i :: 0 <= i < |staticNames| ==> !Yields(staticNames[i], n)
      ensures forall i :: 0 <= i < |subreddits| && subreddits[i].stylesheetIsStatic ==> subreddits[i].staticStylesheetName != n
    {
      GeneratedNames(staticNames, n);
      LiveStylesheetNames(subreddits, n);
    }
  }

  /**
    An empty piece of the prefix list (an empty setting, or a stray comma)
    strips to "", which every name starts with: then nothing is deleted.
   */
  lemma EmptyPrefixProtectsEverything(value: string, name: string)
    requires exists i :: 0 <= i < |Split(value, ',')| && Strip(Split(value, ',')[i]) == ""
    ensures Ignored(name, IgnoredPrefixes(value))
  {
    var i :| 0 <= i < |Split(value, ',')| && Strip(Split(value, ',')[i]) == "";
    assert IgnoredPrefixes(value)[i] == "";
  }
}
