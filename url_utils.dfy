/**
  The URL model of `thumbnail_finder/utils.py`: domain and query-string
  helpers, the ordered query dictionary, path extensions, re-serialisation
  and the paranoid web-safety check of `UrlParser`.

  The standard-library URL routines the source calls (`urlparse`,
  `urlunparse`, `urljoin`, `quote_plus`, `unquote_plus`) are not modelled;
  they are the fields of a `UrlLib` value that every operation needing them
  receives as a parameter.
 */
module UrlUtils {
  import opened Wrappers
  import opened Text

  /** What `urllib.parse.urlparse` yields: a missing host is "", a missing (or zero) port is 0. */
  datatype ParseResult = ParseResult(
    scheme: string, netloc: string, path: string, params: string,
    query: string, fragment: string, hostname: string, port: nat)

  /** The 6-tuple that `_unparse` hands to `urlunparse`. */
  datatype Components = Components(
    scheme: string, netloc: string, path: string, params: string,
    query: string, fragment: string)

  /** The library routines the source relies on, left uninterpreted. */
  datatype UrlLib = UrlLib(
    urlparse: string -> ParseResult,
    urlunparse: Components -> string,
    urljoin: (string, string) -> string,
    quotePlus: string -> string,
    unquotePlus: string -> string)

  // ---------------------------------------------------------------------
  // strip_www

  predicate IsDigit(ch: char) { '0' <= ch <= '9' }

  /** `s` matches `\d*\.` at its start. */
  predicate DigitsThenDot(s: string)
    decreases |s|
  {
    |s| > 0 && (s[0] == '.' || (IsDigit(s[0]) && DigitsThenDot(s[1..])))
  }

  /** `domain` matches `^www\d*\.`. */
  predicate HasWwwPrefix(domain: string)
  {
    "www" <= domain && DigitsThenDot(domain[3..])
  }

  /**
    `strip_www`: a domain with more than one dot whose first label is `www`
    followed by digits loses exactly that first label; any other domain is
    returned unchanged.
   */
  function StripWww(domain: string): (r: string)
    ensures !(Count(domain, '.') > 1 && HasWwwPrefix(domain)) ==> r == domain
    ensures Count(domain, '.') > 1 && HasWwwPrefix(domain) ==>
      '.' in domain && r == domain[IndexOf(domain, '.') + 1..]
  {
    if Count(domain, '.') > 1 && "www" <= domain && HasWwwPrefix(domain) then
      CountedIsPresent(domain, '.');
      DropFirstPiece(domain, '.');
      Join('.', Split(domain, '.')[1..])
    else
      domain
  }

  lemma {:induction false} CountedIsPresent(s: string, ch: char)
    requires Count(s, ch) > 0
    ensures ch in s
  {
    if s[|s| - 1] != ch {
      CountedIsPresent(s[..|s| - 1], ch);
      var j :| 0 <= j < |s| - 1 && s[..|s| - 1][j] == ch;
      assert s[j] == ch;
    }
  }

  /** Joining all pieces but the first gives the text after the first separator. */
  lemma DropFirstPiece(s: string, c: char)
    requires c in s
    ensures Join(c, Split(s, c)[1..]) == s[IndexOf(s, c) + 1..]
  {
    JoinSplit(s[IndexOf(s, c) + 1..], c);
  }

  // ---------------------------------------------------------------------
  // The ordered query dictionary (an `OrderedDict` of strings)

  type QueryDict = seq<(string, string)>

  function Keys(d: QueryDict): (ks: seq<string>)
    ensures |ks| == |d| && forall i :: 0 <= i < |d| ==> ks[i] == d[i].0
  {
    seq(|d|, i requires 0 <= i < |d| => d[i].0)
  }

  predicate DistinctKeys(d: QueryDict)
  {
    forall i, j :: 0 <= i < j < |d| ==> d[i].0 != d[j].0
  }

  /** The position of key `k` in `d`. */
  function KeyPosition(d: QueryDict, k: string): (i: nat)
    requires k in Keys(d)
    ensures i < |d| && d[i].0 == k
  {
    if d[0].0 == k then 0
    else
      assert Keys(d) == [d[0].0] + Keys(d[1..]);
      KeyPosition(d[1..], k) + 1
  }

  /** `dict(d)`: the unordered view of the dictionary. */
  function ToMap(d: QueryDict): (m: map<string, string>)
  {
    if |d| == 0 then map[] else ToMap(d[..|d| - 1])[d[|d| - 1].0 := d[|d| - 1].1]
  }

  lemma {:induction false} ToMapKeys(d: QueryDict)
    ensures forall k :: k in ToMap(d) <==> k in Keys(d)
  {
    if |d| > 0 {
      ToMapKeys(d[..|d| - 1]);
      assert Keys(d) == Keys(d[..|d| - 1]) + [d[|d| - 1].0];
    }
  }

  /** With distinct keys the unordered view maps each key to its own value. */
  lemma {:induction false} ToMapAt(d: QueryDict, i: nat)
    requires DistinctKeys(d) && i < |d|
    ensures d[i].0 in ToMap(d) && ToMap(d)[d[i].0] == d[i].1
  {
    if i < |d| - 1 {
      ToMapAt(d[..|d| - 1], i);
    }
  }

  /**
    Two dictionaries holding the same entries in any order compare equal as
    `dict`s: reordering query parameters never changes `ToMap`.
   */
  lemma ToMapOrderInsensitive(d1: QueryDict, d2: QueryDict)
    requires DistinctKeys(d1) && DistinctKeys(d2)
    requires forall p :: p in d1 <==> p in d2
    ensures ToMap(d1) == ToMap(d2)
  {
    ToMapKeys(d1);
    ToMapKeys(d2);
    forall k | k in ToMap(d1)
      ensures k in ToMap(d2) && ToMap(d1)[k] == ToMap(d2)[k]
    {
      var i := KeyPosition(d1, k);
      ToMapAt(d1, i);
      assert d1[i] in d2;
      var j :| 0 <= j < |d2| && d2[j] == d1[i];
      ToMapAt(d2, j);
    }
    forall k | k in ToMap(d2) ensures k in ToMap(d1) {
      var j := KeyPosition(d2, k);
      assert d2[j] in d1;
      var i :| 0 <= i < |d1| && d1[i] == d2[j];
      assert k in Keys(d1);
    }
  }

  /**
    `d[k] = v` on an `OrderedDict`: a key already present keeps its position
    and takes the new value; a new key goes to the end.
   */
  function Put(d: QueryDict, k: string, v: string): (r: QueryDict)
    requires DistinctKeys(d)
    ensures DistinctKeys(r)
    ensures k in Keys(d) ==> Keys(r) == Keys(d)
    ensures k !in Keys(d) ==> Keys(r) == Keys(d) + [k]
    ensures ToMap(r) == ToMap(d)[k := v]
  {
    if k in Keys(d) then
      var i := KeyPosition(d, k);
      var r := d[i := (k, v)];
      PutExisting(d, i, v);
      r
    else
      assert d + [(k, v)] == d + [(k, v)];
      assert (d + [(k, v)])[..|d|] == d;
      d + [(k, v)]
  }

  lemma PutExisting(d: QueryDict, i: nat, v: string)
    requires DistinctKeys(d) && i < |d|
    ensures var r := d[i := (d[i].0, v)];
      DistinctKeys(r) && Keys(r) == Keys(d) && ToMap(r) == ToMap(d)[d[i].0 := v]
  {
    var r := d[i := (d[i].0, v)];
    assert Keys(r) == Keys(d);
    assert DistinctKeys(r) by {
      forall a, b | 0 <= a < b < |r| ensures r[a].0 != r[b].0 {
        assert r[a].0 == d[a].0 && r[b].0 == d[b].0;
      }
    }
    PutExistingMap(d, r, i, v);
  }

  lemma PutExistingMap(d: QueryDict, r: QueryDict, i: nat, v: string)
    requires DistinctKeys(d) && DistinctKeys(r) && i < |d|
    requires r == d[i := (d[i].0, v)] && Keys(r) == Keys(d)
    ensures ToMap(r) == ToMap(d)[d[i].0 := v]
  {
    var m := ToMap(d)[d[i].0 := v];
    ToMapKeys(r);
    ToMapKeys(d);
    assert d[i].0 in Keys(d);
    forall k | k in ToMap(r)
      ensures k in m && ToMap(r)[k] == m[k]
    {
      var j := KeyPosition(r, k);
      ToMapAt(r, j);
      if j != i { ToMapAt(d, j); }
    }
    assert ToMap(r).Keys == m.Keys;
  }

  /** `d.update(ps)`, one pair at a time in order. */
  function UpdateAll(d: QueryDict, ps: seq<(string, string)>): (r: QueryDict)
    requires DistinctKeys(d)
    ensures DistinctKeys(r)
    decreases |ps|
  {
    if |ps| == 0 then d else UpdateAll(Put(d, ps[0].0, ps[0].1), ps[1..])
  }

  /** Building a dictionary from pairs whose keys are already distinct keeps them as they are. */
  lemma {:induction false} UpdateAllFresh(d: QueryDict, ps: seq<(string, string)>)
    requires DistinctKeys(d + ps)
    ensures DistinctKeys(d) && UpdateAll(d, ps) == d + ps
    decreases |ps|
  {
    assert (d + ps)[..|d|] == d;
    assert DistinctKeys(d) by {
      forall i, j | 0 <= i < j < |d| ensures d[i].0 != d[j].0 {
        assert (d + ps)[i] == d[i] && (d + ps)[j] == d[j];
      }
    }
    if |ps| > 0 {
      forall i | 0 <= i < |d| ensures d[i].0 != ps[0].0 {
        assert (d + ps)[i] == d[i] && (d + ps)[|d|] == ps[0];
      }
      assert ps[0].0 !in Keys(d);
      assert d + [ps[0]] + ps[1..] == d + ps;
      UpdateAllFresh(d + [ps[0]], ps[1..]);
    }
  }

  /** The keys of `ks` in order of first occurrence, each once. */
  function Dedup(ks: seq<string>): (r: seq<string>)
    ensures forall x :: x in r <==> x in ks
    ensures forall i, j :: 0 <= i < j < |r| ==> r[i] != r[j]
  {
    if |ks| == 0 then []
    else
      var prev := Dedup(ks[..|ks| - 1]);
      assert forall x :: x in ks <==> x in ks[..|ks| - 1] || x == ks[|ks| - 1] by {
        assert ks == ks[..|ks| - 1] + [ks[|ks| - 1]];
      }
      if ks[|ks| - 1] in prev then prev else prev + [ks[|ks| - 1]]
  }

  /** The position of the first occurrence of `x`. */
  function FirstIndex(ks: seq<string>, x: string): (i: nat)
    requires x in ks
    ensures i < |ks| && ks[i] == x && x !in ks[..i]
  {
    if ks[0] == x then 0
    else
      var j := FirstIndex(ks[1..], x);
      assert ks[..j + 1] == [ks[0]] + ks[1..][..j];
      j + 1
  }

  /** A position holding `x` with no `x` before it is the first occurrence. */
  lemma FirstIndexUnique(ks: seq<string>, x: string, i: nat)
    requires i < |ks| && ks[i] == x && x !in ks[..i]
    ensures FirstIndex(ks, x) == i
  {
  }

  /**
    `Dedup` lists the keys in order of first occurrence: a key listed
    earlier first occurs earlier.
   */
  lemma {:induction false} DedupOrder(ks: seq<string>)
    ensures forall i, j :: 0 <= i < j < |Dedup(ks)| ==> FirstIndex(ks, Dedup(ks)[i]) < FirstIndex(ks, Dedup(ks)[j])
  {
    if |ks| > 0 {
      var init, x := ks[..|ks| - 1], ks[|ks| - 1];
      var prev := Dedup(init);
      DedupOrder(init);
      assert ks == init + [x];
      forall y | y in init
        ensures FirstIndex(ks, y) == FirstIndex(init, y)
      {
        var f := FirstIndex(init, y);
        assert ks[..f] == init[..f];
        FirstIndexUnique(ks, y, f);
      }
      if x !in prev {
        assert x !in init;
        assert ks[..|init|] == init;
        FirstIndexUnique(ks, x, |init|);
        var r := prev + [x];
        forall i, j | 0 <= i < j < |r|
          ensures FirstIndex(ks, r[i]) < FirstIndex(ks, r[j])
        {
          assert r[i] == prev[i] && r[i] in init;
          if j < |prev| {
            assert r[j] == prev[j] && r[j] in init;
          }
        }
      } else {
        forall i, j | 0 <= i < j < |prev|
          ensures FirstIndex(ks, prev[i]) < FirstIndex(ks, prev[j])
        {
          assert prev[i] in init && prev[j] in init;
        }
      }
    }
  }

  /** Updating with one more pair is one more `Put`. */
  lemma {:induction false} UpdateAllSnoc(d: QueryDict, ps: seq<(string, string)>, p: (string, string))
    requires DistinctKeys(d)
    ensures UpdateAll(d, ps + [p]) == Put(UpdateAll(d, ps), p.0, p.1)
    decreases |ps|
  {
    if |ps| == 0 {
      assert ps + [p] == [p];
    } else {
      assert (ps + [p])[0] == ps[0] && (ps + [p])[1..] == ps[1..] + [p];
      UpdateAllSnoc(Put(d, ps[0].0, ps[0].1), ps[1..], p);
    }
  }

  /**
    `d.update(ps)` keeps the keys of `d` in place and appends the new keys of
    `ps` in the order they first occur.
   */
  lemma {:induction false} UpdateAllKeys(d: QueryDict, ps: seq<(string, string)>)
    requires DistinctKeys(d)
    ensures Keys(UpdateAll(d, ps)) == Dedup(Keys(d) + Keys(ps))
    decreases |ps|
  {
    if |ps| == 0 {
      assert Keys(d) + Keys(ps) == Keys(d);
      DedupDistinct(Keys(d));
    } else {
      var init, p := ps[..|ps| - 1], ps[|ps| - 1];
      var u := UpdateAll(d, init);
      var prefix := Keys(d) + Keys(init);
      assert UpdateAll(d, ps) == Put(u, p.0, p.1) by {
        assert ps == init + [p];
        UpdateAllSnoc(d, init, p);
      }
      assert Keys(u) == Dedup(prefix) by { UpdateAllKeys(d, init); }
      assert Keys(d) + Keys(ps) == prefix + [p.0] by {
        assert ps == init + [p];
        KeysSnoc(init, p);
      }
      DedupSnoc(prefix, p.0);
      if p.0 in Keys(u) {
        assert Keys(Put(u, p.0, p.1)) == Keys(u);
      } else {
        assert Keys(Put(u, p.0, p.1)) == Keys(u) + [p.0];
      }
    }
  }

  lemma KeysSnoc(ps: QueryDict, p: (string, string))
    ensures Keys(ps + [p]) == Keys(ps) + [p.0]
  {
  }

  lemma DedupSnoc(ks: seq<string>, x: string)
    ensures Dedup(ks + [x]) == if x in Dedup(ks) then Dedup(ks) else Dedup(ks) + [x]
  {
    assert (ks + [x])[..|ks|] == ks;
  }

  /** A sequence of distinct keys is its own deduplication. */
  lemma {:induction false} DedupDistinct(ks: seq<string>)
    requires forall i, j :: 0 <= i < j < |ks| ==> ks[i] != ks[j]
    ensures Dedup(ks) == ks
  {
    if |ks| > 0 {
      var init := ks[..|ks| - 1];
      DedupDistinct(init);
      assert ks[|ks| - 1] !in init;
      assert ks == init + [ks[|ks| - 1]];
    }
  }

  /** As a plain `dict`, `d.update(ps)` is `dict(d + ps)`: the last pair for a key wins. */
  lemma {:induction false} UpdateAllValues(d: QueryDict, ps: seq<(string, string)>)
    requires DistinctKeys(d)
    ensures ToMap(UpdateAll(d, ps)) == ToMap(d + ps)
    decreases |ps|
  {
    if |ps| == 0 {
      assert d + ps == d;
    } else {
      var init, p := ps[..|ps| - 1], ps[|ps| - 1];
      assert init + [p] == ps;
      UpdateAllValues(d, init);
      UpdateAllValuesStep(d, init, p);
    }
  }

  /** One more pair extends both sides of `UpdateAllValues` alike. */
  lemma UpdateAllValuesStep(d: QueryDict, init: seq<(string, string)>, p: (string, string))
    requires DistinctKeys(d)
    requires ToMap(UpdateAll(d, init)) == ToMap(d + init)
    ensures ToMap(UpdateAll(d, init + [p])) == ToMap(d + (init + [p]))
  {
    var u := UpdateAll(d, init);
    assert UpdateAll(d, init + [p]) == Put(u, p.0, p.1) by { UpdateAllSnoc(d, init, p); }
    assert ToMap(Put(u, p.0, p.1)) == ToMap(u)[p.0 := p.1];
    ToMapAppendOne(d, init, p);
  }

  /** `dict(a + b + [p])` is `dict(a + b)` with `p` stored last. */
  lemma ToMapAppendOne(a: QueryDict, b: QueryDict, p: (string, string))
    ensures ToMap(a + (b + [p])) == ToMap(a + b)[p.0 := p.1]
  {
    var x := a + b;
    assert a + (b + [p]) == x + [p];
    assert (x + [p])[..|x|] == x;
  }

  /** In `dict(s)` a key maps to the value of its last pair. */
  lemma {:induction false} ToMapLastWins(s: QueryDict, j: nat)
    requires j < |s|
    requires forall i :: j < i < |s| ==> s[i].0 != s[j].0
    ensures s[j].0 in ToMap(s) && ToMap(s)[s[j].0] == s[j].1
  {
    if j < |s| - 1 {
      ToMapLastWins(s[..|s| - 1], j);
    }
  }

  // ---------------------------------------------------------------------
  // query_dict: parsing the raw query string

  /** The pieces of a split that are not empty. */
  function NonEmpty(ps: seq<string>): (r: seq<string>)
    ensures forall x :: x in r <==> x in ps && x != ""
    ensures multiset(r) == multiset(ps)["" := 0]
    ensures (forall i :: 0 <= i < |ps| ==> ps[i] != "") ==> r == ps
  {
    if |ps| == 0 then []
    else
      assert ps == [ps[0]] + ps[1..];
      if ps[0] == "" then NonEmpty(ps[1..])
      else [ps[0]] + NonEmpty(ps[1..])
  }

  /** Dropping the empty pieces keeps the others in order. */
  lemma {:induction false} NonEmptyConcat(a: seq<string>, b: seq<string>)
    ensures NonEmpty(a + b) == NonEmpty(a) + NonEmpty(b)
  {
    if |a| == 0 {
      assert a + b == b;
    } else {
      assert (a + b)[0] == a[0] && (a + b)[1..] == a[1..] + b;
      NonEmptyConcat(a[1..], b);
    }
  }

  /** The raw key and raw value of one `key=value` piece, before unquoting. */
  function RawParam(p: string): (string, string)
  {
    var parts := Split(p, '=');
    (parts[0], Join('=', parts[1..]))
  }

  /**
    A piece is cut at its FIRST `=`: the key holds no `=`, the value is all
    the rest, further `=` included; without `=` the value is empty.
   */
  lemma RawParamCutsAtFirstEquals(p: string)
    ensures var (k, v) := RawParam(p);
      && '=' !in k
      && ('=' in p ==> p == k + "=" + v)
      && ('=' !in p ==> k == p && v == "")
  {
    var parts := Split(p, '=');
    SplitPiecesFree(p, '=');
    JoinSplit(p, '=');
    if '=' in p {
      assert Join('=', parts) == parts[0] + ['='] + Join('=', parts[1..]);
    }
  }

  function SplitParams(ps: seq<string>, unquote: string -> string): (r: seq<(string, string)>)
    ensures |r| == |ps|
    ensures forall i :: 0 <= i < |ps| ==> r[i] == (unquote(RawParam(ps[i]).0), unquote(RawParam(ps[i]).1))
  {
    if |ps| == 0 then []
    else
      var (k, v) := RawParam(ps[0]);
      [(unquote(k), unquote(v))] + SplitParams(ps[1..], unquote)
  }

  /** The dictionary `query_dict` builds from a raw query string. */
  function ParseQuery(query: string, unquote: string -> string): (d: QueryDict)
    ensures DistinctKeys(d)
  {
    UpdateAll([], SplitParams(NonEmpty(Split(query, '&')), unquote))
  }

  /**
    The parsed dictionary holds each key of the query's pairs once, in the
    order keys first occur, and as a plain `dict` it is `dict` of the pairs,
    so a repeated key takes the value of its last pair.
   */
  lemma ParseQueryContents(query: string, unquote: string -> string)
    ensures var pairs := SplitParams(NonEmpty(Split(query, '&')), unquote);
      && Keys(ParseQuery(query, unquote)) == Dedup(Keys(pairs))
      && ToMap(ParseQuery(query, unquote)) == ToMap(pairs)
  {
    var pairs := SplitParams(NonEmpty(Split(query, '&')), unquote);
    UpdateAllKeys([], pairs);
    UpdateAllValues([], pairs);
    assert Keys([]) + Keys(pairs) == Keys(pairs);
    assert [] + pairs == pairs;
  }

  // ---------------------------------------------------------------------
  // query_string

  /** The `key=value` pairs `query_string` emits: entries whose value is None are skipped. */
  function EncodedPairs(items: seq<(string, Option<string>)>, escape: string -> string): seq<string>
  {
    if |items| == 0 then []
    else
      var rest := EncodedPairs(items[1..], escape);
      match items[0].1
      case None => rest
      case Some(v) => [escape(items[0].0) + "=" + escape(v)] + rest
  }

  function QueryStringOf(items: seq<(string, Option<string>)>, escape: string -> string): string
  {
    var pairs := EncodedPairs(items, escape);
    if |pairs| == 0 then "" else "?" + Join('&', pairs)
  }

  /** The dictionary as `query_string` receives it: every value present. */
  function Lift(d: QueryDict): (r: seq<(string, Option<string>)>)
    ensures |r| == |d|
    ensures forall i :: 0 <= i < |d| ==> r[i] == (d[i].0, Some(d[i].1))
  {
    seq(|d|, i requires 0 <= i < |d| => (d[i].0, Some(d[i].1)))
  }

  /**
    `query_string`: "" when no value is present, otherwise `?` and the
    escaped `key=value` pairs joined by `&` in order, None values skipped.
   */
  method QueryString(items: seq<(string, Option<string>)>, escape: string -> string) returns (s: string)
    ensures (forall i :: 0 <= i < |items| ==> items[i].1.None?) <==> s == ""
    ensures s != "" ==> s[0] == '?'
    ensures s == QueryStringOf(items, escape)
  {
    var pairs: seq<string> := [];
    var i := 0;
    while i < |items|
      invariant 0 <= i <= |items|
      invariant pairs + EncodedPairs(items[i..], escape) == EncodedPairs(items, escape)
      invariant (forall j :: 0 <= j < i ==> items[j].1.None?) <==> pairs == []
    {
      var (k, v) := items[i];
      EncodedPairsStep(items, escape, i);
      if v.Some? {
        var p := escape(k) + "=" + escape(v.value);
        assert pairs + [p] + EncodedPairs(items[i + 1..], escape) == pairs + ([p] + EncodedPairs(items[i + 1..], escape));
        pairs := pairs + [p];
      }
      i := i + 1;
    }
    assert items[i..] == [];
    assert pairs == EncodedPairs(items, escape);
    if |pairs| > 0 {
      s := "?" + Join('&', pairs);
    } else {
      s := "";
    }
  }

  /** The pairs from position `i` on: the pair of entry `i`, if its value is present, then the rest. */
  lemma EncodedPairsStep(items: seq<(string, Option<string>)>, escape: string -> string, i: nat)
    requires i < |items|
    ensures EncodedPairs(items[i..], escape) ==
      (if items[i].1.Some? then [escape(items[i].0) + "=" + escape(items[i].1.value)] else [])
      + EncodedPairs(items[i + 1..], escape)
  {
    assert items[i..][0] == items[i] && items[i..][1..] == items[i + 1..];
  }

  /** The `key=value` pieces are non-empty and hold no `&`. */
  predicate WellFormedPairs(ps: seq<string>)
  {
    forall i :: 0 <= i < |ps| ==> '&' !in ps[i] && ps[i] != ""
  }

  /** Each piece holds exactly one `=`. */
  predicate OneEqualsEach(ps: seq<string>)
  {
    forall i :: 0 <= i < |ps| ==> Count(ps[i], '=') == 1
  }

  /** `k=v` with `=` in neither part holds exactly one `=`. */
  lemma PairHasOneEquals(k: string, v: string)
    requires '=' !in k && '=' !in v
    ensures Count(k + "=" + v, '=') == 1
  {
    CountConcat(k + "=", v, '=');
    CountConcat(k, "=", '=');
    CountAbsent(k, '=');
    CountAbsent(v, '=');
    assert Count("=", '=') == 1 by { assert "="[..0] == ""; }
  }

  /**
    Every pair is non-empty and holds no `&`, so it is never an empty piece
    of the `&`-split; and it holds exactly one `=`, the one between key and value.
   */
  lemma {:induction false} EncodedPairsShape(items: seq<(string, Option<string>)>, escape: string -> string)
    requires forall x :: '&' !in escape(x) && '=' !in escape(x)
    ensures WellFormedPairs(EncodedPairs(items, escape))
    ensures OneEqualsEach(EncodedPairs(items, escape))
  {
    if |items| > 0 {
      EncodedPairsShape(items[1..], escape);
      var rest := EncodedPairs(items[1..], escape);
      if items[0].1.Some? {
        var k, v := escape(items[0].0), escape(items[0].1.value);
        var p := k + "=" + v;
        assert '&' !in k && '&' !in v;
        forall j | 0 <= j < |p| ensures p[j] != '&' {
          if j < |k| { assert p[j] == k[j]; }
          else if j > |k| { assert p[j] == v[j - |k| - 1]; }
        }
        assert EncodedPairs(items, escape) == [p] + rest;
        assert p[|k|] == '=';
        PairHasOneEquals(k, v);
        var ps := [p] + rest;
        forall i | 0 <= i < |ps| ensures Count(ps[i], '=') == 1 {
          if i > 0 { assert ps[i] == rest[i - 1]; }
        }
      } else {
        assert EncodedPairs(items, escape) == rest;
      }
    }
  }

  /** Parsing the pairs of an all-present dictionary gives back its entries. */
  lemma {:induction false} ParsePairs(d: QueryDict, escape: string -> string, unquote: string -> string)
    requires forall x :: '=' !in escape(x) && unquote(escape(x)) == x
    ensures SplitParams(EncodedPairs(Lift(d), escape), unquote) == d
  {
    if |d| > 0 {
      assert Lift(d)[1..] == Lift(d[1..]);
      ParsePairs(d[1..], escape, unquote);
      var (k, v) := d[0];
      var p := escape(k) + "=" + escape(v);
      SplitConcat(escape(k), escape(v), '=');
      assert Split(p, '=') == [escape(k), escape(v)];
      assert Split(p, '=')[1..] == [escape(v)];
    }
  }

  /** The joined pairs of a non-empty dictionary start with an escaped key or `=`, never `?`. */
  lemma JoinedPairsStart(d: QueryDict, escape: string -> string)
    requires forall x :: '?' !in escape(x)
    requires |d| > 0
    ensures var pairs := EncodedPairs(Lift(d), escape);
      |pairs| > 0 && Join('&', pairs)[0] != '?'
  {
    var pairs := EncodedPairs(Lift(d), escape);
    var k := escape(d[0].0);
    assert pairs[0] == k + "=" + escape(d[0].1);
    if |pairs| > 1 {
      assert Join('&', pairs) == pairs[0] + ['&'] + Join('&', pairs[1..]);
    }
    if k == "" {
      assert pairs[0][0] == '=';
    } else {
      assert pairs[0][0] == k[0];
    }
  }

  /**
    Round trip of the query string: with an escaping function that never
    emits `&`, `=` or `?` and that `unquote_plus` undoes, re-parsing what
    `_unparse` writes for a dictionary gives back that dictionary.
   */
  lemma QueryRoundTrip(d: QueryDict, escape: string -> string, unquote: string -> string)
    requires DistinctKeys(d)
    requires forall x :: '&' !in escape(x) && '=' !in escape(x) && '?' !in escape(x)
    requires forall x :: unquote(escape(x)) == x
    ensures ParseQuery(LStrip(QueryStringOf(Lift(d), escape), '?'), unquote) == d
  {
    var pairs := EncodedPairs(Lift(d), escape);
    assert SplitParams(pairs, unquote) == d by { ParsePairs(d, escape, unquote); }
    assert UpdateAll([], d) == d by {
      assert [] + d == d;
      UpdateAllFresh([], d);
    }
    if |pairs| == 0 {
      assert QueryStringOf(Lift(d), escape) == "";
      assert NonEmpty(Split("", '&')) == [];
    } else {
      var q := Join('&', pairs);
      assert QueryStringOf(Lift(d), escape) == "?" + q;
      assert WellFormedPairs(pairs) by { EncodedPairsShape(Lift(d), escape); }
      assert q[0] != '?' by { JoinedPairsStart(d, escape); }
      assert LStrip("?" + q, '?') == q by {
        assert ("?" + q)[1..] == q;
      }
      assert NonEmpty(Split(q, '&')) == pairs by { SplitJoin(pairs, '&'); }
    }
  }

  // ---------------------------------------------------------------------
  // Path extensions

  /** The final `/`-segment of a path. */
  function LastSegment(path: string): string
  {
    Last(Split(path, '/'))
  }

  /**
    `path_extension`: the text after the last `.` of the final segment, or
    "" when that segment has no `.`.
   */
  function PathExtension(path: string): (r: string)
    ensures r != "" ==> '.' in LastSegment(path)
  {
    var parts := Split(LastSegment(path), '.');
    if |parts| == 1 then "" else Last(parts)
  }

  /**
    `path_extension` is the text after the last `.` of the final segment
    (so it holds neither `.` nor `/`), or "" when that segment has no `.`.
   */
  lemma PathExtensionIsLastDotSuffix(path: string)
    ensures var f := LastSegment(path);
      var r := PathExtension(path);
      && '.' !in r && '/' !in r
      && ('.' !in f ==> r == "")
      && ('.' in f ==> |r| < |f| && f == Stem(f) + "." + r)
  {
    var f := LastSegment(path);
    var r := PathExtension(path);
    assert '/' !in f by { LastSegmentIsSuffix(path); }
    if '.' in f {
      var parts := Split(f, '.');
      assert r == parts[|parts| - 1];
      assert '.' !in r by { SplitPiecesFree(f, '.'); }
      assert |Stem(f)| < |f| && f == Stem(f) + "." + r by { StemDropsExtension(f); }
      assert r == f[|f| - |r|..];
      assert forall i :: 0 <= i < |r| ==> r[i] == f[|f| - |r| + i];
    }
  }

  const ImageExtensions: set<string> := {"gif", "jpeg", "jpg", "png", "tiff"}
  const StaticImageExtensions: set<string> := {"jpeg", "jpg", "png", "tiff"}

  /** `has_image_extension`. */
  predicate HasImageExtension(path: string)
    ensures HasImageExtension(path) ==> PathExtension(path) != ""
  {
    Lower(PathExtension(path)) in ImageExtensions
  }

  /** `has_static_image_extension`; a static image extension is an image extension. */
  function HasStaticImageExtension(path: string): (r: bool)
    ensures r ==> HasImageExtension(path)
    ensures r ==> Lower(PathExtension(path)) != "gif"
  {
    Lower(PathExtension(path)) in StaticImageExtensions
  }

  /** The final segment with its last dot-suffix removed (`'.'.join(base[:-1])`). */
  function Stem(segment: string): string
  {
    var base := Split(segment, '.');
    Join('.', if |base| > 1 then base[..|base| - 1] else base)
  }

  /** The final segment `set_extension(ext)` writes in place of `segment`. */
  function NewBase(segment: string, ext: string): string
  {
    if ext != "" then Stem(segment) + "." + ext else Stem(segment)
  }

  /** The path `set_extension` writes: the directories, then the new final segment. */
  function WithExtension(path: string, ext: string): (r: string)
    ensures '/' !in path ==> r == NewBase(path, ext)
  {
    var pieces := Split(path, '/');
    Join('/', pieces[..|pieces| - 1] + [NewBase(Last(pieces), ext)])
  }

  /** The directory part of a path: everything up to and including the last `/`. */
  function DirPart(path: string): string
  {
    var ps := Split(path, '/');
    if |ps| == 1 then "" else Join('/', ps[..|ps| - 1]) + "/"
  }

  lemma LastSegmentIsSuffix(path: string)
    ensures |LastSegment(path)| <= |path|
    ensures path == DirPart(path) + LastSegment(path)
    ensures '/' !in LastSegment(path)
    ensures DirPart(path) == "" || Last(DirPart(path)) == '/'
  {
    var ps := Split(path, '/');
    var seg := Last(ps);
    var dir := DirPart(path);
    assert LastSegment(path) == seg;
    assert '/' !in seg by { SplitPiecesFree(path, '/'); }
    assert path == dir + seg && (dir == "" || Last(dir) == '/') by {
      LastPiece(path, '/');
      if '/' in path {
        assert dir == Join('/', ps[..|ps| - 1]) + "/";
      } else {
        assert dir == "" && seg == path;
      }
    }
  }

  /** `set_extension` rewrites only the final segment: the directory part is kept. */
  lemma SetExtensionKeepsDirectories(path: string, ext: string)
    ensures WithExtension(path, ext) == DirPart(path) + NewBase(LastSegment(path), ext)
  {
    var ps := Split(path, '/');
    var b := NewBase(LastSegment(path), ext);
    if |ps| == 1 {
      assert ps[..0] + [b] == [b];
    } else {
      JoinSnoc(ps[..|ps| - 1], b, '/');
    }
  }

  /** The stem of a segment that has a dot is the segment without `.` and its extension. */
  lemma StemDropsExtension(segment: string)
    ensures '.' !in segment ==> Stem(segment) == segment
    ensures '.' in segment ==> |Stem(segment)| < |segment| && segment == Stem(segment) + "." + Last(Split(segment, '.'))
  {
    var base := Split(segment, '.');
    LastPiece(segment, '.');
    if '.' in segment {
      assert Stem(segment) == Join('.', base[..|base| - 1]);
    } else {
      assert base == [segment];
    }
  }

  /** With an extension free of `/`, the new final segment is free of `/`. */
  lemma NewBaseHasNoSlash(segment: string, ext: string)
    requires '/' !in segment && '/' !in ext
    ensures '/' !in NewBase(segment, ext)
  {
    StemDropsExtension(segment);
  }

  /** A slash-free name after a directory part is the final segment. */
  lemma LastSegmentOfAppend(dir: string, name: string)
    requires dir == "" || Last(dir) == '/'
    requires '/' !in name
    ensures LastSegment(dir + name) == name
    ensures DirPart(dir + name) == dir
  {
    if dir == "" {
      assert dir + name == name;
    } else {
      var d := dir[..|dir| - 1];
      assert dir + name == d + ['/'] + name;
      assert dir == d + "/";
      SplitConcat(d, name, '/');
      assert Split(name, '/') == [name];
      var ps := Split(d, '/') + [name];
      assert ps[..|ps| - 1] == Split(d, '/');
      JoinSplit(d, '/');
    }
  }

  /** For a `/`-free extension, `set_extension` leaves the directory part alone and the final segment is the new base. */
  lemma SetExtensionSegments(path: string, ext: string)
    requires '/' !in ext
    ensures LastSegment(WithExtension(path, ext)) == NewBase(LastSegment(path), ext)
    ensures DirPart(WithExtension(path, ext)) == DirPart(path)
  {
    SetExtensionKeepsDirectories(path, ext);
    LastSegmentIsSuffix(path);
    NewBaseHasNoSlash(LastSegment(path), ext);
    LastSegmentOfAppend(DirPart(path), NewBase(LastSegment(path), ext));
  }

  /** Splitting `stem.ext` on `.` for a dot-free `ext` adds `ext` as the last piece. */
  lemma SplitWithExtension(stem: string, ext: string)
    requires '.' !in ext
    ensures Split(stem + "." + ext, '.') == Split(stem, '.') + [ext]
  {
    SplitConcat(stem, ext, '.');
    assert Split(ext, '.') == [ext];
  }

  /**
    `set_extension(e)` for a non-empty `e` without `.` or `/` makes
    `path_extension()` return exactly `e`.
   */
  lemma SetExtensionSets(path: string, ext: string)
    requires ext != "" && '.' !in ext && '/' !in ext
    ensures PathExtension(WithExtension(path, ext)) == ext
  {
    SetExtensionSegments(path, ext);
    SplitWithExtension(Stem(LastSegment(path)), ext);
  }

  /** `set_extension("")` removes the last dot-suffix of the final segment and nothing else. */
  lemma SetExtensionEmptyStrips(path: string)
    requires '.' in LastSegment(path)
    ensures |PathExtension(path)| < |path|
    ensures WithExtension(path, "") == path[..|path| - |PathExtension(path)| - 1]
  {
    var seg := LastSegment(path);
    var dir := DirPart(path);
    var r := PathExtension(path);
    var stripped := dir + Stem(seg);
    assert path == dir + seg by { LastSegmentIsSuffix(path); }
    assert seg == Stem(seg) + "." + r by { PathExtensionIsLastDotSuffix(path); }
    assert path == stripped + ("." + r);
    assert path[..|path| - |r| - 1] == stripped;
    SetExtensionKeepsDirectories(path, "");
  }

  /** `set_extension("")` leaves a path whose final segment has no `.` unchanged. */
  lemma SetExtensionEmptyKeepsPlainName(path: string)
    requires '.' !in LastSegment(path)
    ensures WithExtension(path, "") == path
  {
    LastSegmentIsSuffix(path);
    SetExtensionKeepsDirectories(path, "");
    StemDropsExtension(LastSegment(path));
  }

  /**
    Setting an extension and then clearing it gives the same path as
    clearing the original extension: `set_extension("")` restores the base name.
   */
  lemma SetThenClearExtension(path: string, ext: string)
    requires ext != "" && '.' !in ext && '/' !in ext
    ensures WithExtension(WithExtension(path, ext), "") == WithExtension(path, "")
  {
    var p := WithExtension(path, ext);
    var stem := Stem(LastSegment(path));
    SetExtensionSegments(path, ext);
    SetExtensionKeepsDirectories(path, "");
    SetExtensionKeepsDirectories(p, "");
    SplitWithExtension(stem, ext);
    var sp := Split(stem, '.');
    var bs := sp + [ext];
    assert bs[..|bs| - 1] == sp;
    JoinSplit(stem, '.');
    assert Stem(stem + "." + ext) == stem;
  }

  // ---------------------------------------------------------------------
  // _unparse

  /** `path.replace('//', '/')`: non-overlapping occurrences, scanned left to right. */
  function CollapseSlashes(s: string): (r: string)
    ensures |r| <= |s|
    decreases |s|
  {
    if |s| >= 2 && s[0] == '/' && s[1] == '/' then "/" + CollapseSlashes(s[2..])
    else if |s| == 0 then ""
    else [s[0]] + CollapseSlashes(s[1..])
  }

  predicate HasDoubleSlash(s: string)
  {
    exists i :: 0 <= i < |s| - 1 && s[i] == '/' && s[i + 1] == '/'
  }

  /** The path is left alone exactly when it contains no `//`. */
  lemma {:induction false} CollapseSlashesUnchanged(s: string)
    ensures CollapseSlashes(s) == s <==> !HasDoubleSlash(s)
    decreases |s|
  {
    if |s| >= 2 && s[0] == '/' && s[1] == '/' {
      assert |CollapseSlashes(s)| < |s|;
      assert HasDoubleSlash(s) by { assert s[0] == '/' && s[1] == '/'; }
    } else if |s| > 0 {
      var rest := CollapseSlashes(s[1..]);
      assert CollapseSlashes(s) == [s[0]] + rest;
      assert [s[0]] + rest == s <==> rest == s[1..] by {
        if [s[0]] + rest == s { assert ([s[0]] + rest)[1..] == rest; }
        if rest == s[1..] { assert s == [s[0]] + s[1..]; }
      }
      CollapseSlashesUnchanged(s[1..]);
      DoubleSlashInTail(s);
    }
  }

  /** Without `//` at its start, a string has a `//` exactly when its tail has one. */
  lemma DoubleSlashInTail(s: string)
    requires |s| > 0 && !(|s| >= 2 && s[0] == '/' && s[1] == '/')
    ensures HasDoubleSlash(s) <==> HasDoubleSlash(s[1..])
  {
    if HasDoubleSlash(s) {
      var i :| 0 <= i < |s| - 1 && s[i] == '/' && s[i + 1] == '/';
      assert s[1..][i - 1] == '/' && s[1..][i] == '/';
    }
    if HasDoubleSlash(s[1..]) {
      var i :| 0 <= i < |s[1..]| - 1 && s[1..][i] == '/' && s[1..][i + 1] == '/';
      assert s[i + 1] == '/' && s[i + 2] == '/';
    }
  }

  /** Three slashes become two: the replacement does not rescan its own output. */
  lemma TripleSlashBecomesDouble()
    ensures CollapseSlashes("///") == "//"
  {
    assert "///"[2..] == "/";
    assert CollapseSlashes("/") == "/" by { assert "/"[1..] == ""; }
  }

  /** `netloc`: "" without a host, `host:port` with a port, otherwise the host. */
  function NetlocOf(hostname: string, port: nat): (r: string)
    ensures r == "" <==> hostname == ""
    ensures hostname <= r
    ensures |r| > |hostname| <==> hostname != "" && port != 0
    ensures |r| > |hostname| ==> r[|hostname|] == ':' && r[|hostname| + 1..] == NatToString(port)
  {
    if hostname == "" then ""
    else if port != 0 then hostname + ":" + NatToString(port)
    else hostname
  }

  /** The host `_unparse` keeps: with a port, anything from the first `:` on is dropped. */
  function NormalHost(hostname: string, port: nat): (r: string)
    ensures r <= hostname
    ensures port != 0 ==> ':' !in r
    ensures port == 0 || ':' !in hostname ==> r == hostname
    ensures port != 0 && ':' in hostname ==> r == hostname[..IndexOf(hostname, ':')]
  {
    if port != 0 && ':' in hostname then SplitHead(hostname, ':'); Split(hostname, ':')[0] else hostname
  }

  /** Cutting the host a second time changes nothing. */
  lemma NormalHostIdempotent(hostname: string, port: nat)
    ensures NormalHost(NormalHost(hostname, port), port) == NormalHost(hostname, port)
  {
  }

  /** "if there is a netloc, there had better be a scheme". */
  function DefaultScheme(scheme: string, netloc: string): string
  {
    if netloc != "" && scheme == "" then "http" else scheme
  }

  /** The tuple `_unparse` returns for the given fields and query dictionary. */
  function UnparsedParts(lib: UrlLib, scheme: string, hostname: string, port: nat, path: string,
                         params: string, fragment: string, d: QueryDict): (c: Components)
    ensures c.netloc != "" ==> c.scheme != ""
    ensures scheme != "" ==> c.scheme == scheme
    ensures scheme == "" && c.netloc != "" ==> c.scheme == "http"
    ensures c.netloc == NetlocOf(NormalHost(hostname, port), port)
  {
    var host := NormalHost(hostname, port);
    var netloc := NetlocOf(host, port);
    Components(DefaultScheme(scheme, netloc), netloc, CollapseSlashes(path), params,
               LStrip(QueryStringOf(Lift(d), lib.quotePlus), '?'), fragment)
  }

  /** Unparsing the state `_unparse` leaves behind gives the same tuple again. */
  lemma UnparseStable(lib: UrlLib, scheme: string, hostname: string, port: nat, path: string,
                      params: string, fragment: string, d: QueryDict)
    ensures var c := UnparsedParts(lib, scheme, hostname, port, path, params, fragment, d);
      UnparsedParts(lib, c.scheme, NormalHost(hostname, port), port, path, params, fragment, d) == c
  {
  }

  /** What `coerce_url_to_protocol` returns. */
  function CoercedUrl(lib: UrlLib, url: string, protocol: string): string
  {
    var u := lib.urlparse(url);
    lib.urlunparse(UnparsedParts(lib, protocol, u.hostname, u.port, u.path, u.params, u.fragment,
                                 ParseQuery(u.query, lib.unquotePlus)))
  }

  // ---------------------------------------------------------------------
  // is_web_safe_url

  const ValidSchemes: set<string> := {"http", "https", "ftp", "mailto"}
  const NoBreakSpace: char := '\U{00A0}'

  /** The character class of `URL_PROBLEMATIC_RE`. */
  predicate IsProblematic(ch: char)
  {
    var n := ch as int;
    n <= 0x19 || n == 0xA0 || n == 0x1680 || n == 0x180E || (0x2000 <= n <= 0x2029)
    || n == 0x205F || n == 0x3000 || ch == '\\'
  }

  /**
    No match of `URL_PROBLEMATIC_RE` makes the URL unsafe: no leading space,
    and every problematic character is a no-break space preceded by at least
    three `/`.
   */
  predicate NoProblematicChars(s: string)
  {
    && !(|s| > 0 && s[0] == ' ')
    && forall i :: 0 <= i < |s| && IsProblematic(s[i]) ==> s[i] == NoBreakSpace && Count(s[..i], '/') >= 3
  }

  /** The checks of `is_web_safe_url` on one variant of the URL. */
  predicate SafeVariant(origUrl: string, hostname: string, path: string, scheme: string, origNetloc: string)
  {
    && !("///" <= origUrl)
    && !(hostname == "" && "//" <= path)
    && !(scheme != "" && hostname == "")
    && '@' !in origNetloc
    && !(scheme != "" && Lower(scheme) !in ValidSchemes)
    && NoProblematicChars(origUrl)
  }

  /** The scan over the matches of `URL_PROBLEMATIC_RE`. */
  method ScanProblematic(s: string) returns (ok: bool)
    ensures ok == NoProblematicChars(s)
  {
    if |s| > 0 && s[0] == ' ' {
      return false;
    }
    var slashes := 0;
    var i := 0;
    while i < |s|
      invariant 0 <= i <= |s|
      invariant slashes == Count(s[..i], '/')
      invariant forall j :: 0 <= j < i && IsProblematic(s[j]) ==> s[j] == NoBreakSpace && Count(s[..j], '/') >= 3
    {
      if IsProblematic(s[i]) && (s[i] != NoBreakSpace || slashes < 3) {
        return false;
      }
      assert s[..i + 1][..i] == s[..i];
      if s[i] == '/' {
        slashes := slashes + 1;
      }
      i := i + 1;
    }
    assert s[..i] == s;
    return true;
  }

  /**
    The values `_unparse` computes from the fields and the query dictionary:
    the tuple, and the host it stores back. Unparsing again from the stored
    host and scheme gives the same tuple.
   */
  method UnparseValues(lib: UrlLib, scheme: string, hostname: string, port: nat, path: string,
                       params: string, fragment: string, d: QueryDict) returns (c: Components, host: string)
    ensures c == UnparsedParts(lib, scheme, hostname, port, path, params, fragment, d)
    ensures host == NormalHost(hostname, port) && c.netloc == NetlocOf(host, port)
    ensures |c.query| > 0 ==> c.query[0] != '?'
    ensures UnparsedParts(lib, c.scheme, host, port, path, params, fragment, d) == c
  {
    var q := QueryString(Lift(d), lib.quotePlus);
    q := LStrip(q, '?');
    host := NormalHost(hostname, port);
    var netloc := NetlocOf(host, port);
    c := Components(DefaultScheme(scheme, netloc), netloc, CollapseSlashes(path), params, q, fragment);
    UnparseStable(lib, scheme, hostname, port, path, params, fragment, d);
  }

  // ---------------------------------------------------------------------
  // UrlParser

  class UrlParser {
    var scheme: string
    var path: string
    var params: string
    var query: string
    var fragment: string
    var hostname: string
    var port: nat
    const origUrl: string
    const origNetloc: string
    /** The lazily filled `_query_dict`. */
    var queryDictCache: Option<QueryDict>

    ghost predicate Valid()
      reads this
    {
      queryDictCache.Some? ==> DistinctKeys(queryDictCache.value)
    }

    constructor (lib: UrlLib, url: string)
      ensures Valid()
      ensures var u := lib.urlparse(url);
        && scheme == u.scheme && path == u.path && params == u.params && query == u.query
        && fragment == u.fragment && hostname == u.hostname && port == u.port
        && origUrl == url && origNetloc == u.netloc && queryDictCache == None
    {
      var u := lib.urlparse(url);
      scheme, path, params, query, fragment := u.scheme, u.path, u.params, u.query, u.fragment;
      hostname, port := u.hostname, u.port;
      origUrl, origNetloc := url, u.netloc;
      queryDictCache := None;
    }

    /** The dictionary `query_dict` would return now: the cache, or the parsed query. */
    function CurrentQueryDict(unquote: string -> string): (d: QueryDict)
      reads this
      requires Valid()
      ensures DistinctKeys(d)
    {
      if queryDictCache.Some? then queryDictCache.value else ParseQuery(query, unquote)
    }

    /** The `netloc` property. */
    function Netloc(): (r: string)
      reads this
      ensures hostname <= r && (r == "" <==> hostname == "")
    {
      NetlocOf(hostname, port)
    }

    /** The tuple `_unparse` would return now. */
    function Parts(lib: UrlLib): Components
      reads this
      requires Valid()
    {
      UnparsedParts(lib, scheme, hostname, port, path, params, fragment, CurrentQueryDict(lib.unquotePlus))
    }

    /** `query_dict`: computed from the query string on first use, then served from the cache. */
    method QueryDict(lib: UrlLib) returns (d: QueryDict)
      requires Valid()
      modifies this
      ensures Valid()
      ensures d == old(CurrentQueryDict(lib.unquotePlus)) && queryDictCache == Some(d)
      ensures old(queryDictCache).Some? ==> d == old(queryDictCache).value
      ensures old(queryDictCache).None? ==> d == ParseQuery(query, lib.unquotePlus)
      ensures scheme == old(scheme) && path == old(path) && params == old(params) && query == old(query)
      ensures fragment == old(fragment) && hostname == old(hostname) && port == old(port)
    {
      if queryDictCache.None? {
        queryDictCache := Some(ParseQuery(query, lib.unquotePlus));
      }
      d := queryDictCache.value;
    }

    /** `update_query`: writes each update into the query dictionary in order. */
    method UpdateQuery(lib: UrlLib, updates: seq<(string, string)>)
      requires Valid()
      modifies this
      ensures Valid()
      ensures queryDictCache == Some(UpdateAll(old(CurrentQueryDict(lib.unquotePlus)), updates))
      ensures scheme == old(scheme) && path == old(path) && params == old(params) && query == old(query)
      ensures fragment == old(fragment) && hostname == old(hostname) && port == old(port)
    {
      var d := QueryDict(lib);
      queryDictCache := Some(UpdateAll(d, updates));
    }

    /** `set_extension`: rewrites the final segment of the path; no other field changes. */
    method SetExtension(ext: string)
      modifies this
      ensures path == WithExtension(old(path), ext)
      ensures ext != "" && '.' !in ext && '/' !in ext ==> PathExtension(path) == ext
      ensures '/' !in ext ==> DirPart(path) == DirPart(old(path))
      ensures '/' !in ext ==> LastSegment(path) == NewBase(LastSegment(old(path)), ext)
      ensures scheme == old(scheme) && params == old(params) && query == old(query)
      ensures fragment == old(fragment) && hostname == old(hostname) && port == old(port)
      ensures queryDictCache == old(queryDictCache)
    {
      var p := path;
      path := WithExtension(p, ext);
      if '/' !in ext {
        SetExtensionSegments(p, ext);
        if ext != "" && '.' !in ext {
          SetExtensionSets(p, ext);
        }
      }
    }

    /**
      `_unparse`: fills the query cache, drops a doubled port from the host,
      defaults the scheme to `http` when there is a netloc, and returns the
      tuple with `//` collapsed in the path and the query rebuilt from the
      dictionary. The state it leaves behind unparses to the same tuple.
     */
    method UnparseParts(lib: UrlLib) returns (c: Components)
      requires Valid()
      modifies this
      ensures Valid()
      ensures c == old(Parts(lib)) && c == Parts(lib)
      ensures queryDictCache == Some(old(CurrentQueryDict(lib.unquotePlus)))
      ensures hostname == NormalHost(old(hostname), port) && scheme == c.scheme
      ensures (path, params, query, fragment, port) == old((path, params, query, fragment, port))
    {
      var d := QueryDict(lib);
      var host;
      c, host := UnparseValues(lib, scheme, hostname, port, path, params, fragment, d);
      hostname, scheme := host, c.scheme;
      assert CurrentQueryDict(lib.unquotePlus) == d;
    }

    /** `unparse`. */
    method Unparse(lib: UrlLib) returns (s: string)
      requires Valid()
      modifies this
      ensures Valid()
      ensures s == lib.urlunparse(old(Parts(lib))) && Parts(lib) == old(Parts(lib))
      ensures queryDictCache == Some(old(CurrentQueryDict(lib.unquotePlus)))
      ensures hostname == NormalHost(old(hostname), port) && scheme == old(Parts(lib)).scheme
      ensures path == old(path) && params == old(params) && query == old(query)
      ensures fragment == old(fragment) && port == old(port)
    {
      var c := UnparseParts(lib);
      s := lib.urlunparse(c);
    }

    /**
      `__eq__`: scheme, netloc, path, params and fragment of both `_unparse`
      tuples agree and the query dictionaries agree as unordered maps.
     */
    method Equals(lib: UrlLib, other: UrlParser) returns (eq: bool)
      requires Valid() && other.Valid()
      modifies this, other
      ensures Valid() && other.Valid()
      ensures Parts(lib) == old(Parts(lib)) && other.Parts(lib) == old(other.Parts(lib))
      ensures queryDictCache == Some(old(CurrentQueryDict(lib.unquotePlus)))
      ensures other.queryDictCache == Some(old(other.CurrentQueryDict(lib.unquotePlus)))
      ensures hostname == NormalHost(old(hostname), port) && scheme == old(Parts(lib)).scheme
      ensures other.hostname == NormalHost(old(other.hostname), other.port)
      ensures other.scheme == old(other.Parts(lib)).scheme
      ensures (path, params, query, fragment, port) == old((path, params, query, fragment, port))
      ensures (other.path, other.params, other.query, other.fragment, other.port)
           == old((other.path, other.params, other.query, other.fragment, other.port))
      ensures eq == SameUrl(old(Parts(lib)), old(CurrentQueryDict(lib.unquotePlus)),
                            old(other.Parts(lib)), old(other.CurrentQueryDict(lib.unquotePlus)))
    {
      ghost var parts, dict, host := Parts(lib), CurrentQueryDict(lib.unquotePlus), hostname;
      var s := UnparseParts(lib);
      var o := other.UnparseParts(lib);
      assert other != this ==> Parts(lib) == parts && CurrentQueryDict(lib.unquotePlus) == dict;
      assert hostname == NormalHost(host, port) by {
        if other == this {
          NormalHostIdempotent(host, port);
        }
      }
      if s.scheme != o.scheme || s.netloc != o.netloc || s.path != o.path
         || s.params != o.params || s.fragment != o.fragment {
        return false;
      }
      var sd := QueryDict(lib);
      var od := other.QueryDict(lib);
      eq := ToMap(sd) == ToMap(od);
    }

    /** The checks of `is_web_safe_url` on this object as it stands. */
    method WebSafeCheck() returns (ok: bool)
      ensures ok == SafeVariant(origUrl, hostname, path, scheme, origNetloc)
    {
      if "///" <= origUrl {
        return false;
      }
      if hostname == "" && "//" <= path {
        return false;
      }
      if scheme != "" && hostname == "" {
        return false;
      }
      if '@' in origNetloc {
        return false;
      }
      if scheme != "" && Lower(scheme) !in ValidSchemes {
        return false;
      }
      ok := ScanProblematic(origUrl);
    }

    /**
      `is_web_safe_url` under `perform_paranoid_check`: `unparse()` runs first
      (normalising this object's host and scheme), then the checks must pass
      both on this object and on a parser of the unparsed string.
     */
    method IsWebSafeUrl(lib: UrlLib) returns (safe: bool)
      requires Valid()
      modifies this
      ensures Valid() && Parts(lib) == old(Parts(lib))
      ensures queryDictCache == Some(old(CurrentQueryDict(lib.unquotePlus)))
      ensures hostname == NormalHost(old(hostname), port) && scheme == old(Parts(lib)).scheme
      ensures path == old(path) && params == old(params) && query == old(query)
      ensures fragment == old(fragment) && port == old(port)
      ensures var s := lib.urlunparse(old(Parts(lib)));
        var u := lib.urlparse(s);
        safe == (SafeVariant(origUrl, hostname, path, scheme, origNetloc)
                 && SafeVariant(s, u.hostname, u.path, u.scheme, u.netloc))
      ensures "///" <= origUrl || '@' in origNetloc || !NoProblematicChars(origUrl) ==> !safe
    {
      var s := Unparse(lib);
      var reparsed := new UrlParser(lib, s);
      safe := WebSafeCheck();
      if safe {
        safe := reparsed.WebSafeCheck();
      }
    }
  }

  /** The comparison `__eq__` makes of two `_unparse` tuples and query dictionaries. */
  predicate SameUrl(c1: Components, d1: QueryDict, c2: Components, d2: QueryDict)
  {
    && c1.scheme == c2.scheme && c1.netloc == c2.netloc && c1.path == c2.path
    && c1.params == c2.params && c1.fragment == c2.fragment
    && ToMap(d1) == ToMap(d2)
  }

  /** Two URLs whose query dictionaries hold the same entries in different orders are equal. */
  lemma ReorderedQueryStillEqual(c1: Components, d1: QueryDict, c2: Components, d2: QueryDict)
    requires DistinctKeys(d1) && DistinctKeys(d2)
    requires forall p :: p in d1 <==> p in d2
    requires c1.scheme == c2.scheme && c1.netloc == c2.netloc && c1.path == c2.path
    requires c1.params == c2.params && c1.fragment == c2.fragment
    ensures SameUrl(c1, d1, c2, d2)
  {
    ToMapOrderInsensitive(d1, d2);
  }

  /**
    `coerce_url_to_protocol`: parse, overwrite the scheme, unparse.
   */
  method CoerceUrlToProtocol(lib: UrlLib, url: string, protocol: string) returns (s: string)
    ensures s == CoercedUrl(lib, url, protocol)
  {
    var parsed := new UrlParser(lib, url);
    parsed.scheme := protocol;
    s := parsed.Unparse(lib);
  }
}
