/**
  String helpers with the meaning of the Python built-ins the source relies on:
  `str.split` and `str.join` on a one-character separator, `str.startswith`,
  `in` on substrings, ASCII `lower()`, `count` and `lstrip`/`strip`.
 */
module Text {

  /** Index of the first occurrence of `c` in `s`. */
  function IndexOf(s: string, c: char): (i: nat)
    requires c in s
    ensures i < |s| && s[i] == c && c !in s[..i]
  {
    if s[0] == c then 0
    else
      var j := IndexOf(s[1..], c);
      assert s[..j + 1] == [s[0]] + s[1..][..j];
      j + 1
  }

  /** `s.split(c)`: the pieces between occurrences of `c`; never empty. */
  function Split(s: string, c: char): (r: seq<string>)
    ensures |r| >= 1
    ensures (|r| == 1) == (c !in s)
    ensures c !in s ==> r == [s]
  {
    if |s| == 0 then [""]
    else
      assert s == [s[0]] + s[1..];
      Prepend(s[0], c, Split(s[1..], c))
  }

  /** The pieces of `[x] + t` from the pieces `r` of `t`: a separator opens a new piece. */
  function Prepend(x: char, c: char, r: seq<string>): seq<string>
    requires |r| >= 1
  {
    if x == c then [""] + r else [[x] + r[0]] + r[1..]
  }

  /** Prepending a character only touches the first piece. */
  lemma PrependAppend(x: char, c: char, ra: seq<string>, rb: seq<string>)
    requires |ra| >= 1
    ensures Prepend(x, c, ra + rb) == Prepend(x, c, ra) + rb
  {
    if x == c {
      assert [""] + (ra + rb) == [""] + ra + rb;
    } else {
      var h := [x] + ra[0];
      assert (ra + rb)[0] == ra[0];
      assert (ra + rb)[1..] == ra[1..] + rb;
      assert [h] + (ra[1..] + rb) == [h] + ra[1..] + rb;
    }
  }

  /** No piece of `s.split(c)` contains `c`. */
  lemma {:induction false} SplitPiecesFree(s: string, c: char)
    ensures forall i :: 0 <= i < |Split(s, c)| ==> c !in Split(s, c)[i]
  {
    if |s| > 0 {
      SplitPiecesFree(s[1..], c);
    }
  }

  /** The first piece is a prefix of `s` without `c`, empty only when `s` is or starts with `c`. */
  lemma {:induction false} SplitFirst(s: string, c: char)
    ensures Split(s, c)[0] <= s
    ensures c !in Split(s, c)[0]
    ensures Split(s, c)[0] == "" <==> |s| == 0 || s[0] == c
  {
    if |s| > 0 {
      SplitFirst(s[1..], c);
    }
  }

  /** `c.join(xs)`. */
  function Join(c: char, xs: seq<string>): string
  {
    if |xs| == 0 then ""
    else if |xs| == 1 then xs[0]
    else xs[0] + [c] + Join(c, xs[1..])
  }

  function Last<T>(xs: seq<T>): T
    requires |xs| > 0
  {
    xs[|xs| - 1]
  }

  /** Prepending to the first piece of a non-empty join prepends to the join. */
  lemma JoinHead(c: char, x: string, xs: seq<string>)
    requires |xs| >= 1
    ensures Join(c, [x + xs[0]] + xs[1..]) == x + Join(c, xs)
  {
    var ys := [x + xs[0]] + xs[1..];
    assert ys[1..] == xs[1..];
  }

  /** Joining the pieces of a split restores the string. */
  lemma {:induction false} JoinSplit(s: string, c: char)
    ensures Join(c, Split(s, c)) == s
  {
    if |s| > 0 {
      var rest := Split(s[1..], c);
      JoinSplit(s[1..], c);
      if s[0] == c {
        assert ([""] + rest)[1..] == rest;
      } else {
        JoinHead(c, [s[0]], rest);
      }
      assert s == [s[0]] + s[1..];
    }
  }

  /** A separator in the middle of a string splits it into the pieces of both sides. */
  lemma {:induction false} SplitConcat(a: string, b: string, c: char)
    ensures Split(a + [c] + b, c) == Split(a, c) + Split(b, c)
  {
    var s := a + [c] + b;
    if |a| == 0 {
      assert s[0] == c && s[1..] == b;
    } else {
      assert s[0] == a[0] && s[1..] == a[1..] + [c] + b;
      SplitConcat(a[1..], b, c);
      PrependAppend(a[0], c, Split(a[1..], c), Split(b, c));
    }
  }

  /** The first piece runs up to the first `c`; the others are the pieces of what follows it. */
  lemma SplitHead(s: string, c: char)
    requires c in s
    ensures Split(s, c) == [s[..IndexOf(s, c)]] + Split(s[IndexOf(s, c) + 1..], c)
  {
    var i := IndexOf(s, c);
    assert s == s[..i] + [c] + s[i + 1..];
    SplitConcat(s[..i], s[i + 1..], c);
  }

  /** Splitting a join of separator-free pieces gives back the pieces. */
  lemma {:induction false} SplitJoin(xs: seq<string>, c: char)
    requires |xs| >= 1
    requires forall i :: 0 <= i < |xs| ==> c !in xs[i]
    ensures Split(Join(c, xs), c) == xs
  {
    if |xs| > 1 {
      SplitJoin(xs[1..], c);
      SplitConcat(xs[0], Join(c, xs[1..]), c);
    }
  }

  /** Appending one more piece to a non-empty join adds a separator and that piece. */
  lemma {:induction false} JoinSnoc(xs: seq<string>, y: string, c: char)
    requires |xs| >= 1
    ensures Join(c, xs + [y]) == Join(c, xs) + [c] + y
  {
    if |xs| > 1 {
      assert (xs + [y])[1..] == xs[1..] + [y];
      JoinSnoc(xs[1..], y, c);
    } else {
      assert (xs + [y])[1..] == [y];
    }
  }

  /**
    The last piece of `s.split(c)` is the longest suffix of `s` without `c`:
    when `s` contains `c`, the text before that suffix is `Join` of the other
    pieces followed by `c`.
   */
  lemma {:induction false} LastPiece(s: string, c: char)
    ensures var ps := Split(s, c);
      && (c !in s ==> Last(ps) == s)
      && (c in s ==> s == Join(c, ps[..|ps| - 1]) + [c] + Last(ps))
  {
    var ps := Split(s, c);
    if c in s {
      var init := ps[..|ps| - 1];
      assert ps == init + [Last(ps)];
      assert Join(c, ps) == s by { JoinSplit(s, c); }
      JoinSnoc(init, Last(ps), c);
    } else {
      assert ps == [s];
    }
  }

  /** `sub in s` for strings. */
  predicate Contains(s: string, sub: string)
    decreases |s|
  {
    sub <= s || (|s| > 0 && Contains(s[1..], sub))
  }

  /** ASCII part of `str.lower()`. */
  function LowerChar(ch: char): (r: char)
    ensures 'A' <= ch <= 'Z' ==> r as int == ch as int + 32
    ensures !('A' <= ch <= 'Z') ==> r == ch
  {
    if 'A' <= ch <= 'Z' then (ch as int + 32) as char else ch
  }

  function Lower(s: string): (r: string)
    ensures |r| == |s|
    ensures forall i :: 0 <= i < |s| ==> r[i] == LowerChar(s[i])
  {
    seq(|s|, i requires 0 <= i < |s| => LowerChar(s[i]))
  }

  /** `s.count(ch)`. */
  function Count(s: string, ch: char): nat
  {
    if |s| == 0 then 0 else (if s[|s| - 1] == ch then 1 else 0) + Count(s[..|s| - 1], ch)
  }

  /** Counting over a concatenation adds the counts of the parts. */
  lemma {:induction false} CountConcat(a: string, b: string, ch: char)
    ensures Count(a + b, ch) == Count(a, ch) + Count(b, ch)
    decreases |b|
  {
    if |b| == 0 {
      assert a + b == a;
    } else {
      assert (a + b)[..|a + b| - 1] == a + b[..|b| - 1];
      CountConcat(a, b[..|b| - 1], ch);
    }
  }

  /** A string without `ch` counts none. */
  lemma {:induction false} CountAbsent(s: string, ch: char)
    requires ch !in s
    ensures Count(s, ch) == 0
  {
    if |s| > 0 {
      assert forall x :: x in s[..|s| - 1] ==> x in s;
      CountAbsent(s[..|s| - 1], ch);
    }
  }

  /** `s.lstrip(ch)`: drops every leading `ch`. */
  function LStrip(s: string, ch: char): (r: string)
    ensures |r| <= |s| && r == s[|s| - |r|..]
    ensures |r| > 0 ==> r[0] != ch
    ensures forall i :: 0 <= i < |s| - |r| ==> s[i] == ch
  {
    if |s| > 0 && s[0] == ch then LStrip(s[1..], ch) else s
  }

  /** The whitespace of Python 2's byte-string `strip()`. */
  predicate IsSpace(ch: char)
  {
    ch == ' ' || ch == '\t' || ch == '\n' || ch == '\r' || ch == '\U{000B}' || ch == '\U{000C}'
  }

  function LStripSpace(s: string): (r: string)
    ensures |r| <= |s| && r == s[|s| - |r|..]
    ensures |r| > 0 ==> !IsSpace(r[0])
  {
    if |s| > 0 && IsSpace(s[0]) then LStripSpace(s[1..]) else s
  }

  function RStripSpace(s: string): (r: string)
    ensures r <= s
    ensures |r| > 0 ==> !IsSpace(r[|r| - 1])
  {
    if |s| > 0 && IsSpace(s[|s| - 1]) then RStripSpace(s[..|s| - 1]) else s
  }

  /** `s.strip()`. */
  function Strip(s: string): string
  {
    RStripSpace(LStripSpace(s))
  }

  /** `str(n)` for a natural number. */
  function NatToString(n: nat): (r: string)
    ensures |r| >= 1
    ensures forall i :: 0 <= i < |r| ==> '0' <= r[i] <= '9'
  {
    var d := ['0' + (n % 10) as char];
    if n < 10 then d else NatToString(n / 10) + d
  }
}
