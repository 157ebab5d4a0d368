/**
  The thumbnail selection rules of `thumbnail_finder/thumbnail_finder.py`:
  URL cleaning, the request gate, the chunked image-size probe, scraper
  dispatch, the heuristic chain of the generic scraper (Open Graph tag,
  `image_src` link, largest acceptable image) and the video-provider
  scraper.

  The network, HTML parsing and image-header parsing are not modelled; they
  are the fields of a `Network` value that the operations receive.
 */
module ThumbnailFinder {
  import opened Wrappers
  import opened Text
  import opened UrlUtils

  newtype byte = x: int | 0 <= x < 256

  // ---------------------------------------------------------------------
  // _clean_url

  const HexDigits: string := "0123456789ABCDEF"

  /** The UTF-8 encoding of one character. */
  function Utf8(ch: char): (bs: seq<byte>)
    ensures 1 <= |bs| <= 4
    ensures ch as int < 0x80 <==> |bs| == 1
  {
    var n := ch as int;
    if n < 0x80 then [n as byte]
    else if n < 0x800 then [(0xC0 + n / 64) as byte, (0x80 + n % 64) as byte]
    else if n < 0x10000 then [(0xE0 + n / 4096) as byte, (0x80 + (n / 64) % 64) as byte, (0x80 + n % 64) as byte]
    else [(0xF0 + n / 262144) as byte, (0x80 + (n / 4096) % 64) as byte, (0x80 + (n / 64) % 64) as byte,
          (0x80 + n % 64) as byte]
  }

  /** The code point a one- to four-byte UTF-8 sequence encodes. */
  function Utf8Decode(bs: seq<byte>): int
  {
    if |bs| == 1 then bs[0] as int
    else if |bs| == 2 then (bs[0] as int - 0xC0) * 64 + (bs[1] as int - 0x80)
    else if |bs| == 3 then (bs[0] as int - 0xE0) * 4096 + (bs[1] as int - 0x80) * 64 + (bs[2] as int - 0x80)
    else if |bs| == 4 then
      (bs[0] as int - 0xF0) * 262144 + (bs[1] as int - 0x80) * 4096 + (bs[2] as int - 0x80) * 64 + (bs[3] as int - 0x80)
    else 0
  }

  /** Decoding the UTF-8 bytes of a character gives the character back. */
  lemma Utf8RoundTrip(ch: char)
    ensures Utf8Decode(Utf8(ch)) == ch as int
  {
    var n := ch as int;
    assert n == 64 * (n / 64) + n % 64;
    assert n / 64 == 64 * (n / 4096) + (n / 64) % 64;
    assert n / 4096 == 64 * (n / 262144) + (n / 4096) % 64;
  }

  /** The value of an upper-case hexadecimal digit. */
  function HexValue(c: char): nat
  {
    if '0' <= c <= '9' then c as int - '0' as int
    else if 'A' <= c <= 'F' then c as int - 'A' as int + 10
    else 0
  }

  lemma HexValueOfDigit(d: nat)
    requires d < 16
    ensures HexValue(HexDigits[d]) == d
  {
  }

  /** `%XX` for one byte: its high and low hexadecimal digits, which read back as the byte. */
  function Escape(b: byte): (r: string)
    ensures |r| == 3 && r[0] == '%' && r[1] == HexDigits[b as int / 16] && r[2] == HexDigits[b as int % 16]
    ensures forall i :: 0 <= i < 3 ==> r[i] as int < 127
    ensures HexValue(r[1]) * 16 + HexValue(r[2]) == b as int
  {
    HexValueOfDigit(b as int / 16);
    HexValueOfDigit(b as int % 16);
    ['%', HexDigits[b as int / 16], HexDigits[b as int % 16]]
  }

  /** `%XX` for each byte, with upper-case hexadecimal digits. */
  function PercentEncode(bs: seq<byte>): (r: string)
    ensures |r| == 3 * |bs|
    ensures forall i :: 0 <= i < |r| ==> r[i] as int < 127
  {
    if |bs| == 0 then ""
    else Escape(bs[0]) + PercentEncode(bs[1..])
  }

  /** Byte `i` becomes the three characters from `3 * i`: `%` and its two hexadecimal digits, high first. */
  lemma {:induction false} PercentEncodeBytes(bs: seq<byte>)
    ensures var r := PercentEncode(bs);
      forall i :: 0 <= i < |bs| ==> r[3 * i..3 * i + 3] == Escape(bs[i])
  {
    if |bs| > 0 {
      var head, rest := Escape(bs[0]), PercentEncode(bs[1..]);
      assert PercentEncode(bs) == head + rest;
      PercentEncodeBytes(bs[1..]);
      forall i | 0 <= i < |bs|
        ensures (head + rest)[3 * i..3 * i + 3] == Escape(bs[i])
      {
        if i == 0 {
          SliceOfConcat(head, rest, 0, 3);
        } else {
          SliceOfConcat(head, rest, 3 * i, 3 * i + 3);
          assert bs[i] == bs[1..][i - 1];
        }
      }
    }
  }

  /** A slice of `x + y` that lies inside one side. */
  lemma SliceOfConcat(x: string, y: string, lo: int, hi: int)
    requires 0 <= lo <= hi <= |x| + |y|
    ensures hi <= |x| ==> (x + y)[lo..hi] == x[lo..hi]
    ensures |x| <= lo ==> (x + y)[lo..hi] == y[lo - |x|..hi - |x|]
  {
  }

  /** The bytes as numbers. */
  function Ints(bs: seq<byte>): (r: seq<int>)
    ensures |r| == |bs| && forall i :: 0 <= i < |bs| ==> r[i] == bs[i] as int
  {
    seq(|bs|, i requires 0 <= i < |bs| => bs[i] as int)
  }

  /** Reads back the bytes of a run of `%XX` escapes. */
  function PercentDecode(s: string): seq<int>
    decreases |s|
  {
    if |s| < 3 then [] else [HexValue(s[1]) * 16 + HexValue(s[2])] + PercentDecode(s[3..])
  }

  /** Decoding reads one escape off the front. */
  lemma PercentDecodeCons(x: string, rest: string)
    requires |x| == 3
    ensures PercentDecode(x + rest) == [HexValue(x[1]) * 16 + HexValue(x[2])] + PercentDecode(rest)
  {
    assert (x + rest)[1] == x[1] && (x + rest)[2] == x[2] && (x + rest)[3..] == rest;
  }

  /** Decoding the escapes gives back the bytes. */
  lemma {:induction false} PercentRoundTrip(bs: seq<byte>)
    ensures PercentDecode(PercentEncode(bs)) == Ints(bs)
  {
    if |bs| > 0 {
      var e, rest := Escape(bs[0]), PercentEncode(bs[1..]);
      assert PercentEncode(bs) == e + rest;
      PercentDecodeCons(e, rest);
      assert HexValue(e[1]) * 16 + HexValue(e[2]) == bs[0] as int;
      PercentRoundTrip(bs[1..]);
      IntsCons(bs);
    }
  }

  /** The numbers of a non-empty run of bytes: the first, then the rest. */
  lemma IntsCons(bs: seq<byte>)
    requires |bs| > 0
    ensures Ints(bs) == [bs[0] as int] + Ints(bs[1..])
  {
    var r, tail := Ints(bs), Ints(bs[1..]);
    assert forall i :: 0 <= i < |tail| ==> tail[i] == bs[i + 1] as int;
  }

  /** `urllib.parse.quote(c)` for a character outside printable ASCII: every byte of its UTF-8 encoding is escaped. */
  function Quote(ch: char): (r: string)
    ensures 3 <= |r| <= 12 && r[0] == '%'
    ensures forall i :: 0 <= i < |r| ==> r[i] as int < 127
  {
    PercentEncode(Utf8(ch))
  }

  /** Reading the escapes of `quote(c)` back gives the UTF-8 bytes of `c`, which decode to `c`. */
  lemma QuoteDecodes(ch: char)
    ensures PercentDecode(Quote(ch)) == Ints(Utf8(ch)) && Utf8Decode(Utf8(ch)) == ch as int
  {
    PercentRoundTrip(Utf8(ch));
    Utf8RoundTrip(ch);
  }

  /**
    `_clean_url`: every character below 127 stays where it is, every other
    character (DEL included) becomes its percent-quoting, so the result holds
    only characters below 127 and a URL already made of them is unchanged.
   */
  function CleanUrl(url: string): (r: string)
    ensures |r| >= |url|
    ensures forall i :: 0 <= i < |r| ==> r[i] as int < 127
    ensures (forall i :: 0 <= i < |url| ==> url[i] as int < 127) ==> r == url
  {
    if |url| == 0 then ""
    else
      var head := if url[0] as int >= 127 then Quote(url[0]) else [url[0]];
      head + CleanUrl(url[1..])
  }

  /** Cleaning works character by character, in order. */
  lemma {:induction false} CleanUrlConcat(a: string, b: string)
    ensures CleanUrl(a + b) == CleanUrl(a) + CleanUrl(b)
  {
    if |a| > 0 {
      var head := if a[0] as int >= 127 then Quote(a[0]) else [a[0]];
      assert (a + b)[0] == a[0] && (a + b)[1..] == a[1..] + b;
      assert CleanUrl(a + b) == head + CleanUrl(a[1..] + b);
      assert CleanUrl(a) == head + CleanUrl(a[1..]);
      CleanUrlConcat(a[1..], b);
    } else {
      assert a + b == b;
    }
  }

  /** One character: kept when below 127, otherwise replaced by its percent-quoting. */
  lemma CleanUrlChar(c: char)
    ensures CleanUrl([c]) == if c as int >= 127 then Quote(c) else [c]
  {
    assert [c][1..] == [];
  }

  /** Cleaning a cleaned URL changes nothing. */
  lemma CleanUrlIdempotent(url: string)
    ensures CleanUrl(CleanUrl(url)) == CleanUrl(url)
  {
  }

  // ---------------------------------------------------------------------
  // _initialize_request

  const UserAgent: string := "Mozilla/5.0 (Windows NT 6.3; Win64; x64) Gecko/20100101 Firefox/53.0"

  /** A `urllib.request.Request`; header names are stored capitalised, as `add_header` does. */
  datatype Request = Request(url: string, headers: map<string, string>)

  /** A Python string used as a condition: present and non-empty. */
  predicate Truthy(s: Option<string>)
  {
    s.Some? && s.value != ""
  }

  /**
    `_initialize_request`: no request unless the cleaned URL starts with
    `http://` or `https://`; the request always carries the User-Agent,
    Accept-Encoding gzip only when asked, and a Referer only when one is given.
   */
  function InitializeRequest(url: string, referer: Option<string>, gzip: bool): (r: Option<Request>)
    ensures r.Some? <==> "http://" <= CleanUrl(url) || "https://" <= CleanUrl(url)
    ensures r.Some? ==> r.value.url == CleanUrl(url)
    ensures r.Some? ==> r.value.headers.Keys <= {"Accept-encoding", "User-agent", "Referer"}
    ensures r.Some? ==> "User-agent" in r.value.headers && r.value.headers["User-agent"] == UserAgent
    ensures r.Some? ==> ("Accept-encoding" in r.value.headers <==> gzip)
    ensures r.Some? && gzip ==> r.value.headers["Accept-encoding"] == "gzip"
    ensures r.Some? ==> ("Referer" in r.value.headers <==> Truthy(referer))
    ensures r.Some? && Truthy(referer) ==> r.value.headers["Referer"] == referer.value
  {
    var cleaned := CleanUrl(url);
    if !("http://" <= cleaned || "https://" <= cleaned) then None
    else
      var h0: map<string, string> := map[];
      var h1 := if gzip then h0["Accept-encoding" := "gzip"] else h0;
      var h2 := h1["User-agent" := UserAgent];
      var h3 := if Truthy(referer) then h2["Referer" := referer.value] else h2;
      Some(Request(cleaned, h3))
  }

  // ---------------------------------------------------------------------
  // The environment

  datatype Size = Size(width: nat, height: nat)

  /** An HTML element in document order, with its (lower-case) attributes. */
  datatype Element = Element(tag: string, attrs: map<string, string>)

  type Document = seq<Element>

  /** What `_fetch_url` gets back: an error, or the content type and (decompressed) body. */
  datatype PageReply = PageFailed | Page(contentType: Option<string>, body: seq<byte>)

  /** What `json.loads` of the oEmbed answer gives; field values other than strings and null are not modelled. */
  datatype OEmbedReply =
    | OEmbedFailed
    | NotAnObject(truthy: bool)
    | JsonObject(fields: map<string, Option<string>>)

  datatype OEmbedQuery = OEmbedQuery(endpoint: string, params: seq<(string, string)>)

  /**
    What `urlopen` does with an image request: a URLError (HTTPError
    included), any other exception (such as InvalidURL), or a response whose
    stream yields `body` and then either ends or raises on the next read
    (`broken`: IncompleteRead, a reset connection and the like).
   */
  datatype ImageReply =
    | UrlError
    | OpenError
    | Stream(body: seq<byte>, broken: bool)

  /** PIL's incremental parser after being fed a prefix of the stream: still waiting, done, or raised by `feed`. */
  datatype ParserState = Waiting | ImageKnown(size: Size) | FeedError

  /** What `_fetch_image_size` ends with: None, a size, or an exception that escapes it. */
  datatype SizeProbe = NoSize | Sized(size: Size) | ProbeRaised

  /** The network and the foreign parsers. */
  datatype Network = Network(
    fetchPage: Request -> PageReply,
    parseHtml: seq<byte> -> Document,
    open: Request -> ImageReply,
    imageSize: seq<byte> -> ParserState,
    oembed: OEmbedQuery -> OEmbedReply)

  // ---------------------------------------------------------------------
  // _fetch_image_size

  const ChunkSize: nat := 1024

  /** Where a chunk of the stream ends: a multiple of the chunk size, or the end of the stream. */
  predicate Boundary(body: seq<byte>, n: nat)
  {
    0 < n <= |body| && (n == |body| || n % ChunkSize == 0)
  }

  /** What the probe ends with when it has already consumed `read` bytes. */
  function Probe(body: seq<byte>, broken: bool, parse: seq<byte> -> ParserState, read: nat): SizeProbe
    requires read <= |body|
    decreases |body| - read
  {
    if read == |body| then (if broken then ProbeRaised else NoSize)
    else
      var next := if read + ChunkSize <= |body| then read + ChunkSize else |body|;
      match parse(body[..next])
      case ImageKnown(size) => Sized(size)
      case FeedError => ProbeRaised
      case Waiting => Probe(body, broken, parse, next)
  }

  /**
    The chunk loop of `_fetch_image_size`: feeds 1024-byte chunks to the
    parser and stops right after the first chunk for which it has an image;
    a failing read or feed ends it with the exception. `read` is how much of
    the stream was consumed.
   */
  method ReadImageSize(body: seq<byte>, broken: bool, parse: seq<byte> -> ParserState)
    returns (size: SizeProbe, read: nat)
    ensures size == Probe(body, broken, parse, 0)
    ensures forall n: nat :: Boundary(body, n) && n < read ==> parse(body[..n]).Waiting?
    ensures size.Sized? ==> Boundary(body, read) && parse(body[..read]) == ImageKnown(size.size)
    ensures size.NoSize? ==> !broken && read == |body|
    ensures size.NoSize? ==> forall n: nat :: Boundary(body, n) ==> parse(body[..n]).Waiting?
    ensures size.ProbeRaised? ==>
      (Boundary(body, read) && parse(body[..read]).FeedError?) || (broken && read == |body|)
  {
    var fed: seq<byte> := [];
    read := 0;
    while true
      invariant read <= |body| && fed == body[..read]
      invariant read == |body| || read % ChunkSize == 0
      invariant Probe(body, broken, parse, 0) == Probe(body, broken, parse, read)
      invariant forall n: nat :: Boundary(body, n) && n <= read ==> parse(body[..n]).Waiting?
      decreases |body| - read
    {
      var next := if read + ChunkSize <= |body| then read + ChunkSize else |body|;
      var chunk := body[read..next];
      if |chunk| == 0 {
        if broken {
          return ProbeRaised, read;
        }
        break;
      }
      fed := fed + chunk;
      ghost var before := read;
      read := next;
      assert fed == body[..read];
      var state := parse(fed);
      if state.ImageKnown? {
        return Sized(state.size), read;
      }
      if state.FeedError? {
        return ProbeRaised, read;
      }
      forall n: nat | Boundary(body, n) && n <= read
        ensures parse(body[..n]).Waiting?
      {
        if n > before {
          assert n == read;
        }
      }
    }
    size := NoSize;
  }

  /** What `_fetch_image_size(url, referer)` ends with. */
  function ImageSizeOf(net: Network, url: string, referer: Option<string>): SizeProbe
  {
    match InitializeRequest(url, referer, false)
    case None => NoSize
    case Some(request) =>
      match net.open(request)
      case UrlError => NoSize
      case OpenError => ProbeRaised
      case Stream(body, broken) => Probe(body, broken, net.imageSize, 0)
  }

  /**
    `_fetch_image_size`: no request for a URL the gate rejects, no size on a
    URLError, an escaping exception on any other failure, otherwise the
    chunked probe.
   */
  method FetchImageSize(net: Network, url: string, referer: Option<string>) returns (size: SizeProbe)
    ensures size == ImageSizeOf(net, url, referer)
    ensures InitializeRequest(url, referer, false).None? ==> size.NoSize?
    ensures InitializeRequest(url, referer, false).Some? ==>
      var reply := net.open(InitializeRequest(url, referer, false).value);
      && (reply.UrlError? ==> size.NoSize?)
      && (reply.OpenError? ==> size.ProbeRaised?)
  {
    var request := InitializeRequest(url, referer, false);
    if request.None? {
      return NoSize;
    }
    var response := net.open(request.value);
    if response.UrlError? {
      return NoSize;
    }
    if response.OpenError? {
      return ProbeRaised;
    }
    var read;
    size, read := ReadImageSize(response.body, response.broken, net.imageSize);
  }

  // ---------------------------------------------------------------------
  // Scraper.for_url and _YouTubeScraper.matches

  /** The part of `_YouTubeScraper.URL_MATCH` after the scheme: `(www\.)?youtube\.com/watch|youtu\.be/`. */
  predicate YouTubeHost(host: string)
  {
    var afterWww := if "www." <= host then host[4..] else host;
    "youtube.com/watch" <= afterWww || "youtu.be/" <= host
  }

  /**
    `_YouTubeScraper.URL_MATCH.match(url)`: `http`, an optional `s`, `://`,
    then a YouTube host.
   */
  predicate YouTubeMatches(url: string)
    ensures YouTubeMatches(url) ==> "http://" <= url || "https://" <= url
  {
    "http" <= url &&
    var afterHttp := url[4..];
    var afterS := if "s" <= afterHttp then afterHttp[1..] else afterHttp;
    "://" <= afterS && YouTubeHost(afterS[3..])
  }

  /** `p + q` starts `s` exactly when `p` does and `q` starts what follows it. */
  lemma PrefixThen(p: string, q: string, s: string)
    ensures p + q <= s <==> p <= s && q <= s[|p|..]
  {
    if p <= s && q <= s[|p|..] {
      assert (p + q) == s[..|p| + |q|];
    }
    if p + q <= s {
      assert s[..|p|] == p;
      assert s[|p|..][..|q|] == q;
    }
  }

  lemma YouTubeHostPrefixes(host: string)
    ensures YouTubeHost(host) <==>
      "youtube.com/watch" <= host || "www.youtube.com/watch" <= host || "youtu.be/" <= host
  {
    PrefixThen("www.", "youtube.com/watch", host);
    assert "www.youtube.com/watch" == "www." + "youtube.com/watch";
    if "www." <= host {
      assert host[0] == 'w';
    }
  }

  lemma YouTubeSchemes(url: string)
    ensures YouTubeMatches(url) <==>
      ("http://" <= url && YouTubeHost(url[7..])) || ("https://" <= url && YouTubeHost(url[8..]))
  {
    PrefixThen("http", "://", url);
    PrefixThen("http", "s://", url);
    assert "http://" == "http" + "://" && "https://" == "http" + "s://";
    if "http" <= url {
      var afterHttp := url[4..];
      PrefixThen("s", "://", afterHttp);
      assert "s://" == "s" + "://";
      if "s" <= afterHttp {
        assert afterHttp[1..] == url[5..];
        if "://" <= url[5..] {
          assert url[5..][3..] == url[8..];
        }
        assert !("://" <= afterHttp) by { assert afterHttp[0] == 's'; }
      } else if "://" <= afterHttp {
        assert afterHttp[3..] == url[7..];
      }
    }
  }

  /** A scheme followed by a host prefix, read as one prefix. */
  lemma SchemeHostPrefixes(scheme: string, url: string)
    ensures (scheme <= url && YouTubeHost(url[|scheme|..])) <==>
      scheme + "youtube.com/watch" <= url || scheme + "www.youtube.com/watch" <= url || scheme + "youtu.be/" <= url
  {
    PrefixThen(scheme, "youtube.com/watch", url);
    PrefixThen(scheme, "www.youtube.com/watch", url);
    PrefixThen(scheme, "youtu.be/", url);
    if scheme <= url {
      YouTubeHostPrefixes(url[|scheme|..]);
    }
  }

  lemma HttpPrefixes(url: string)
    ensures ("http://" <= url && YouTubeHost(url[7..])) <==>
      "http://youtube.com/watch" <= url || "http://www.youtube.com/watch" <= url || "http://youtu.be/" <= url
  {
    SchemeHostPrefixes("http://", url);
    assert "http://" + "youtube.com/watch" == "http://youtube.com/watch";
    assert "http://" + "www.youtube.com/watch" == "http://www.youtube.com/watch";
    assert "http://" + "youtu.be/" == "http://youtu.be/";
  }

  lemma HttpsPrefixes(url: string)
    ensures ("https://" <= url && YouTubeHost(url[8..])) <==>
      "https://youtube.com/watch" <= url || "https://www.youtube.com/watch" <= url || "https://youtu.be/" <= url
  {
    SchemeHostPrefixes("https://", url);
    assert "https://" + "youtube.com/watch" == "https://youtube.com/watch";
    assert "https://" + "www.youtube.com/watch" == "https://www.youtube.com/watch";
    assert "https://" + "youtu.be/" == "https://youtu.be/";
  }

  /** The pattern accepts exactly the URLs that start with one of six prefixes. */
  lemma YouTubeMatchesPrefixes(url: string)
    ensures YouTubeMatches(url) <==>
      || "http://youtube.com/watch" <= url || "http://www.youtube.com/watch" <= url
      || "http://youtu.be/" <= url
      || "https://youtube.com/watch" <= url || "https://www.youtube.com/watch" <= url
      || "https://youtu.be/" <= url
  {
    YouTubeSchemes(url);
    HttpPrefixes(url);
    HttpsPrefixes(url);
  }

  /** A scraper and the state its constructor records. */
  datatype Scraper =
    | YouTubeScraper(url: string, maxwidth: nat)
    | ThumbnailOnlyScraper(url: string, protocol: string)

  /**
    `Scraper.for_url`: the video-provider scraper exactly when it is enabled
    and the URL matches; otherwise the generic scraper, which remembers the
    page's scheme for protocol-relative image URLs.
   */
  function ForUrl(lib: UrlLib, url: string, maxwidth: nat, useYouTube: bool): (r: Scraper)
    ensures r.url == url
    ensures r.YouTubeScraper? <==> useYouTube && YouTubeMatches(url)
    ensures r.YouTubeScraper? ==> r.maxwidth == maxwidth && "http" <= url
    ensures r.ThumbnailOnlyScraper? ==> r.protocol == lib.urlparse(url).scheme
  {
    if useYouTube && YouTubeMatches(url) then YouTubeScraper(url, maxwidth)
    else ThumbnailOnlyScraper(url, lib.urlparse(url).scheme)
  }

  // ---------------------------------------------------------------------
  // Looking elements up

  /**
    What `soup.find(tag, ...)` asks of an element: an attribute equal to a
    value, or (for a multi-valued attribute such as `rel`) a value among its
    space-separated tokens.
   */
  datatype Matcher =
    | AttrIs(tag: string, attr: string, value: string)
    | TokenIs(tag: string, attr: string, value: string)

  predicate Matches(e: Element, m: Matcher)
  {
    e.tag == m.tag && m.attr in e.attrs &&
    match m
    case AttrIs(_, _, v) => e.attrs[m.attr] == v
    case TokenIs(_, _, v) => e.attrs[m.attr] == v || v in Split(e.attrs[m.attr], ' ')
  }

  /** The position of the first element that matches, as `soup.find` picks it. */
  function FindIndex(doc: Document, m: Matcher): (r: Option<nat>)
    ensures r.Some? ==> r.value < |doc| && Matches(doc[r.value], m)
    ensures r.Some? ==> forall j :: 0 <= j < r.value ==> !Matches(doc[j], m)
    ensures r.None? <==> forall j :: 0 <= j < |doc| ==> !Matches(doc[j], m)
  {
    if |doc| == 0 then None
    else if Matches(doc[0], m) then Some(0)
    else
      match FindIndex(doc[1..], m)
      case None => None
      case Some(i) => Some(i + 1)
  }

  function Find(doc: Document, m: Matcher): Option<Element>
  {
    match FindIndex(doc, m)
    case None => None
    case Some(i) => Some(doc[i])
  }

  /**
    `find(ms[0]) or find(ms[1]) or ...`: the element found by the first
    matcher that finds one, with that matcher's position.
   */
  function FirstFound(doc: Document, ms: seq<Matcher>): (r: Option<(nat, Element)>)
    ensures r.Some? ==> r.value.0 < |ms| && Find(doc, ms[r.value.0]) == Some(r.value.1)
    ensures r.Some? ==> forall j :: 0 <= j < r.value.0 ==> Find(doc, ms[j]).None?
    ensures r.None? <==> forall j :: 0 <= j < |ms| ==> Find(doc, ms[j]).None?
  {
    if |ms| == 0 then None
    else if Find(doc, ms[0]).Some? then Some((0, Find(doc, ms[0]).value))
    else
      match FirstFound(doc, ms[1..])
      case None => None
      case Some((i, e)) => Some((i + 1, e))
  }

  // ---------------------------------------------------------------------
  // The heuristics of _ThumbnailOnlyScraper

  /** What a step of scraping gives: a URL, Python's None, or an exception. */
  datatype Outcome = Found(url: string) | NoResult | Raised

  /** The Open Graph tags, in the order `_scrape_og_url` tries them. */
  const OgMatchers: seq<Matcher> := [
    AttrIs("meta", "property", "og:image"),
    AttrIs("meta", "name", "og:image"),
    AttrIs("meta", "property", "og:image:url"),
    AttrIs("meta", "name", "og:image:url")]

  /** An attribute read with `tag.get(name)`. */
  function Get(e: Element, name: string): Option<string>
  {
    if name in e.attrs then Some(e.attrs[name]) else None
  }

  /**
    `_scrape_og_url`: only the first Open Graph tag found counts; its
    non-empty `content`, resolved against the page URL, is the answer.
   */
  function ScrapeOgUrl(lib: UrlLib, page: string, doc: Document): (r: Option<string>)
    ensures r.Some? <==> FirstFound(doc, OgMatchers).Some? && Truthy(Get(FirstFound(doc, OgMatchers).value.1, "content"))
    ensures r.Some? ==> r.value == lib.urljoin(page, FirstFound(doc, OgMatchers).value.1.attrs["content"])
  {
    match FirstFound(doc, OgMatchers)
    case None => None
    case Some((_, tag)) =>
      if Truthy(Get(tag, "content")) then Some(lib.urljoin(page, tag.attrs["content"])) else None
  }

  /** An Open Graph `property` tag hides any later tag, even when it has no usable content. */
  lemma OgFirstTagDecides(lib: UrlLib, page: string, doc: Document)
    requires Find(doc, OgMatchers[0]).Some?
    ensures var tag := Find(doc, OgMatchers[0]).value;
      ScrapeOgUrl(lib, page, doc) ==
        if Truthy(Get(tag, "content")) then Some(lib.urljoin(page, tag.attrs["content"])) else None
  {
    var f := FirstFound(doc, OgMatchers);
    assert f.Some? && f.value.0 == 0;
  }

  const ImageSrcLink: Matcher := TokenIs("link", "rel", "image_src")

  /**
    `_scrape_thumbnail_spec`: the first `<link rel="image_src">`; its
    non-empty `href`, resolved against the page URL, is the answer, and a
    link without `href` raises (KeyError).
   */
  function ScrapeThumbnailSpec(lib: UrlLib, page: string, doc: Document): (r: Outcome)
    ensures r.Raised? <==> Find(doc, ImageSrcLink).Some? && "href" !in Find(doc, ImageSrcLink).value.attrs
    ensures r.Found? <==> Find(doc, ImageSrcLink).Some? && Truthy(Get(Find(doc, ImageSrcLink).value, "href"))
    ensures r.Found? ==> r.url == lib.urljoin(page, Find(doc, ImageSrcLink).value.attrs["href"])
  {
    match Find(doc, ImageSrcLink)
    case None => NoResult
    case Some(link) =>
      if "href" !in link.attrs then Raised
      else if link.attrs["href"] == "" then NoResult
      else Found(lib.urljoin(page, link.attrs["href"]))
  }

  /** An `<img>` element with a `src` attribute (an empty one included). */
  predicate HasSrc(e: Element)
  {
    e.tag == "img" && "src" in e.attrs
  }

  /** `_extract_image_urls`: the `src` of every `<img>` that has one, resolved against the page URL. */
  function ImageUrls(lib: UrlLib, page: string, doc: Document): (r: seq<string>)
    ensures |r| <= |doc|
  {
    if |doc| == 0 then []
    else
      var rest := ImageUrls(lib, page, doc[1..]);
      if HasSrc(doc[0]) then [lib.urljoin(page, doc[0].attrs["src"])] + rest
      else rest
  }

  /** A URL is extracted exactly when some `<img src>` of the document resolves to it. */
  lemma {:induction false} ImageUrlsMembers(lib: UrlLib, page: string, doc: Document)
    ensures forall u :: u in ImageUrls(lib, page, doc) <==>
      exists i :: 0 <= i < |doc| && HasSrc(doc[i]) && u == lib.urljoin(page, doc[i].attrs["src"])
  {
    if |doc| > 0 {
      ImageUrlsMembers(lib, page, doc[1..]);
      forall u
        ensures u in ImageUrls(lib, page, doc) <==>
          exists i :: 0 <= i < |doc| && HasSrc(doc[i]) && u == lib.urljoin(page, doc[i].attrs["src"])
      {
        if exists i :: 0 <= i < |doc| && HasSrc(doc[i]) && u == lib.urljoin(page, doc[i].attrs["src"]) {
          var i :| 0 <= i < |doc| && HasSrc(doc[i]) && u == lib.urljoin(page, doc[i].attrs["src"]);
          if i > 0 {
            assert doc[1..][i - 1] == doc[i];
          }
        }
        if u in ImageUrls(lib, page, doc[1..]) {
          var i :| 0 <= i < |doc[1..]| && HasSrc(doc[1..][i]) && u == lib.urljoin(page, doc[1..][i].attrs["src"]);
          assert doc[i + 1] == doc[1..][i];
        }
      }
    }
  }

  /** Extraction keeps document order: the images of a split document are those of each part, in turn. */
  lemma {:induction false} ImageUrlsConcat(lib: UrlLib, page: string, d1: Document, d2: Document)
    ensures ImageUrls(lib, page, d1 + d2) == ImageUrls(lib, page, d1) + ImageUrls(lib, page, d2)
  {
    if |d1| > 0 {
      assert (d1 + d2)[0] == d1[0];
      assert (d1 + d2)[1..] == d1[1..] + d2;
      ImageUrlsConcat(lib, page, d1[1..], d2);
    } else {
      assert d1 + d2 == d2;
    }
  }

  /** A candidate URL as it is probed: protocol-relative URLs take the page's scheme. */
  function ProbedUrl(lib: UrlLib, url: string, protocol: string): string
  {
    if "//" <= url then CoercedUrl(lib, url, protocol) else url
  }

  /**
    The URLs `_find_largest_image_url` probes, in extraction order: a
    protocol-relative one is re-rooted on the page's scheme, any other is
    probed as extracted.
   */
  function Candidates(lib: UrlLib, page: string, doc: Document, protocol: string): (r: seq<string>)
    ensures var urls := ImageUrls(lib, page, doc);
      |r| == |urls| &&
      forall i :: 0 <= i < |r| ==>
        (("//" <= urls[i] ==> r[i] == CoercedUrl(lib, urls[i], protocol)) &&
         (!("//" <= urls[i]) ==> r[i] == urls[i]))
  {
    var urls := ImageUrls(lib, page, doc);
    seq(|urls|, i requires 0 <= i < |urls| => ProbedUrl(lib, urls[i], protocol))
  }

  const MinArea: nat := 5000

  function Max(a: nat, b: nat): nat { if a >= b then a else b }
  function Min(a: nat, b: nat): nat { if a <= b then a else b }

  /**
    The score `_find_largest_image_url` gives an image, scaled by 10 so that
    the sprite penalty (a tenth of the area) stays exact: no score without a
    size, under 5000 square pixels, or when one side is more than twice the
    other; otherwise ten times the area, or the bare area when the URL
    mentions "sprite" in any case.
   */
  function Score(url: string, size: Option<Size>): (r: Option<nat>)
    ensures r.Some? <==>
      size.Some? && size.value.width * size.value.height >= MinArea &&
      Max(size.value.width, size.value.height) <= 2 * Min(size.value.width, size.value.height)
    ensures r.Some? ==> r.value >= MinArea
    ensures r.Some? && Contains(Lower(url), "sprite") ==> r.value == size.value.width * size.value.height
    ensures r.Some? && !Contains(Lower(url), "sprite") ==> r.value == 10 * size.value.width * size.value.height
  {
    match size
    case None => None
    case Some(s) =>
      var area := s.width * s.height;
      if area < MinArea then None
      else if Max(s.width, s.height) > 2 * Min(s.width, s.height) then None
      else if Contains(Lower(url), "sprite") then Some(area)
      else Some(10 * area)
  }

  /**
    The running maximum of a sequence of optional scores, starting from 0,
    replaced only by a strictly larger score: the best score and where it is.
   */
  function Best(scores: seq<Option<nat>>): (r: (nat, Option<nat>))
    ensures r.1.Some? ==> r.1.value < |scores| && scores[r.1.value] == Some(r.0)
    ensures r.1.None? ==> r.0 == 0
  {
    if |scores| == 0 then (0, None)
    else
      var prev := Best(scores[..|scores| - 1]);
      assert prev.1.Some? ==> scores[prev.1.value] == scores[..|scores| - 1][prev.1.value];
      var last := scores[|scores| - 1];
      if last.Some? && last.value > prev.0 then (last.value, Some(|scores| - 1)) else prev
  }

  /** One more score replaces the running best only when it is strictly larger. */
  lemma BestStep(scores: seq<Option<nat>>, i: nat)
    requires i < |scores|
    ensures var prev := Best(scores[..i]);
      Best(scores[..i + 1]) == if scores[i].Some? && scores[i].value > prev.0 then (scores[i].value, Some(i)) else prev
  {
    assert scores[..i + 1][..i] == scores[..i];
  }

  /**
    With positive scores, `Best` picks the earliest of the largest scores,
    and finds nothing only when no image has a score.
   */
  lemma {:induction false} BestIsEarliestMaximum(scores: seq<Option<nat>>)
    requires forall j :: 0 <= j < |scores| && scores[j].Some? ==> scores[j].value > 0
    ensures var (best, at) := Best(scores);
      && (at.None? <==> forall j :: 0 <= j < |scores| ==> scores[j].None?)
      && (at.None? ==> best == 0)
      && (at.Some? ==> at.value < |scores| && scores[at.value] == Some(best))
      && (forall j :: 0 <= j < |scores| && scores[j].Some? ==> scores[j].value <= best)
      && (at.Some? ==> forall j :: 0 <= j < at.value && scores[j].Some? ==> scores[j].value < best)
  {
    if |scores| > 0 {
      var init := scores[..|scores| - 1];
      BestIsEarliestMaximum(init);
      assert forall j :: 0 <= j < |init| ==> init[j] == scores[j];
    }
  }

  /** The size a probe found, if any. */
  function Measured(p: SizeProbe): Option<Size>
  {
    if p.Sized? then Some(p.size) else None
  }

  function Scores(net: Network, page: string, cands: seq<string>): (r: seq<Option<nat>>)
    ensures |r| == |cands|
    ensures forall j :: 0 <= j < |cands| ==> r[j] == Score(cands[j], Measured(ImageSizeOf(net, cands[j], Some(page))))
  {
    seq(|cands|, j requires 0 <= j < |cands| => Score(cands[j], Measured(ImageSizeOf(net, cands[j], Some(page)))))
  }

  /** Probing candidate `j` raises an exception that `_fetch_image_size` does not catch. */
  predicate ProbeRaisesAt(net: Network, page: string, cands: seq<string>, j: nat)
    requires j < |cands|
  {
    ImageSizeOf(net, cands[j], Some(page)).ProbeRaised?
  }

  predicate SomeProbeRaises(net: Network, page: string, cands: seq<string>)
  {
    exists j :: 0 <= j < |cands| && ProbeRaisesAt(net, page, cands, j)
  }

  /**
    What `_find_largest_image_url` gives: an exception escaping a probe
    aborts it; otherwise the best-scoring candidate, or a TypeError from
    concatenating None when no candidate scores.
   */
  function LargestImage(net: Network, lib: UrlLib, page: string, doc: Document, protocol: string): (r: Outcome)
    ensures r.Found? || r.Raised?
    ensures r.Found? ==> r.url in Candidates(lib, page, doc, protocol)
  {
    var cands := Candidates(lib, page, doc, protocol);
    var best := Best(Scores(net, page, cands));
    if SomeProbeRaises(net, page, cands) then Raised
    else if best.1.None? then Raised else Found(cands[best.1.value])
  }

  /**
    One pass of the loop of `_find_largest_image_url`: the URL as probed and
    its score, or None where the loop moves on to the next image.
   */
  method ScoreCandidate(net: Network, lib: UrlLib, page: string, protocol: string, imageUrl: string)
    returns (url: string, raised: bool, score: Option<nat>)
    ensures url == ProbedUrl(lib, imageUrl, protocol)
    ensures raised == ImageSizeOf(net, url, Some(page)).ProbeRaised?
    ensures score == Score(url, Measured(ImageSizeOf(net, url, Some(page))))
  {
    url := imageUrl;
    if "//" <= url {
      url := CoerceUrlToProtocol(lib, url, protocol);
    }
    var size := FetchImageSize(net, url, Some(page));
    if size.ProbeRaised? {
      return url, true, None;
    }
    if size.NoSize? {
      return url, false, None;
    }
    var area := size.size.width * size.size.height;
    if area < MinArea {
      return url, false, None;
    }
    if Max(size.size.width, size.size.height) > 2 * Min(size.size.width, size.size.height) {
      return url, false, None;
    }
    // Scores are kept ten times larger so that the sprite penalty needs no division.
    if Contains(Lower(url), "sprite") {
      return url, false, Some(area);
    }
    return url, false, Some(10 * area);
  }

  /**
    `_find_largest_image_url`: probes every image of the page in order and
    keeps the first one with the largest score; no scoring image raises.
   */
  method FindLargestImageUrl(net: Network, lib: UrlLib, page: string, doc: Document, protocol: string)
    returns (r: Outcome)
    ensures r == LargestImage(net, lib, page, doc, protocol)
  {
    var urls := ImageUrls(lib, page, doc);
    ghost var cands := Candidates(lib, page, doc, protocol);
    ghost var scores := Scores(net, page, cands);
    var maxArea: nat := 0;
    var maxUrl: Option<string> := None;
    for i := 0 to |urls|
      invariant maxArea == Best(scores[..i]).0
      invariant maxUrl.None? <==> Best(scores[..i]).1.None?
      invariant Best(scores[..i]).1.Some? ==> maxUrl == Some(cands[Best(scores[..i]).1.value])
      invariant forall j :: 0 <= j < i ==> !ProbeRaisesAt(net, page, cands, j)
    {
      var url, raised, score := ScoreCandidate(net, lib, page, protocol, urls[i]);
      assert url == cands[i] && score == scores[i];
      assert raised == ProbeRaisesAt(net, page, cands, i);
      if raised {
        assert SomeProbeRaises(net, page, cands);
        return Raised;
      }
      assert forall j :: 0 <= j < i + 1 ==> !ProbeRaisesAt(net, page, cands, j) by {
        forall j | 0 <= j < i + 1 ensures !ProbeRaisesAt(net, page, cands, j) {
          if j == i {
            assert !raised;
          }
        }
      }
      BestStep(scores, i);
      if score.Some? && score.value > maxArea {
        maxArea := score.value;
        maxUrl := Some(url);
      }
    }
    assert scores[..|urls|] == scores;
    assert !SomeProbeRaises(net, page, cands);
    if maxUrl.None? {
      return Raised;
    }
    return Found(maxUrl.value);
  }

  /**
    The largest-image heuristic raises exactly when a probe raises or no
    image scores, and otherwise answers with a candidate whose score no
    other candidate beats and no earlier candidate matches.
   */
  lemma LargestImageChoice(net: Network, lib: UrlLib, page: string, doc: Document, protocol: string)
    ensures var cands := Candidates(lib, page, doc, protocol);
      var scores := Scores(net, page, cands);
      var r := LargestImage(net, lib, page, doc, protocol);
      && (r.Found? || r.Raised?)
      && (r.Raised? <==> SomeProbeRaises(net, page, cands) || forall j :: 0 <= j < |cands| ==> scores[j].None?)
      && (r.Found? ==>
            exists k ::
              && 0 <= k < |cands| && r.url == cands[k] && scores[k].Some?
              && (forall j :: 0 <= j < |cands| && scores[j].Some? ==> scores[j].value <= scores[k].value)
              && (forall j :: 0 <= j < k && scores[j].Some? ==> scores[j].value < scores[k].value))
  {
    var cands := Candidates(lib, page, doc, protocol);
    var scores := Scores(net, page, cands);
    var r := LargestImage(net, lib, page, doc, protocol);
    var at := Best(scores).1;
    assert r.Found? || r.Raised?;
    BestIsEarliestMaximum(scores);
    if !SomeProbeRaises(net, page, cands) {
      assert r == if at.None? then Raised else Found(cands[at.value]);
      if at.Some? {
        var k := at.value;
        assert 0 <= k < |cands| && r.url == cands[k] && scores[k].Some?;
      }
    }
  }

  // ---------------------------------------------------------------------
  // _ThumbnailOnlyScraper.scrape

  /** The heuristics, in the order `scrape` tries them. */
  datatype Heuristic = OpenGraph | ThumbnailSpecLink | LargestImageOnPage

  const Heuristics: seq<Heuristic> := [OpenGraph, ThumbnailSpecLink, LargestImageOnPage]

  function HeuristicOutcome(h: Heuristic, net: Network, lib: UrlLib, page: string, doc: Document, protocol: string): Outcome
  {
    match h
    case OpenGraph =>
      (match ScrapeOgUrl(lib, page, doc)
       case None => NoResult
       case Some(u) => Found(u))
    case ThumbnailSpecLink => ScrapeThumbnailSpec(lib, page, doc)
    case LargestImageOnPage => LargestImage(net, lib, page, doc, protocol)
  }

  method RunHeuristic(h: Heuristic, net: Network, lib: UrlLib, page: string, doc: Document, protocol: string)
    returns (r: Outcome)
    ensures r == HeuristicOutcome(h, net, lib, page, doc, protocol)
  {
    match h
    case OpenGraph =>
      var og := ScrapeOgUrl(lib, page, doc);
      r := if og.Some? then Found(og.value) else NoResult;
    case ThumbnailSpecLink =>
      r := ScrapeThumbnailSpec(lib, page, doc);
    case LargestImageOnPage =>
      r := FindLargestImageUrl(net, lib, page, doc, protocol);
  }

  /** The first heuristic that answers or raises decides; none answering is None. */
  function FirstOutcome(hs: seq<Heuristic>, net: Network, lib: UrlLib, page: string, doc: Document, protocol: string): Outcome
  {
    if |hs| == 0 then NoResult
    else
      var first := HeuristicOutcome(hs[0], net, lib, page, doc, protocol);
      if !first.NoResult? then first else FirstOutcome(hs[1..], net, lib, page, doc, protocol)
  }

  /** What `_ThumbnailOnlyScraper(url).scrape()` gives. */
  function PageOutcome(net: Network, lib: UrlLib, url: string, protocol: string): (r: Outcome)
    ensures !r.NoResult? ==> "http://" <= CleanUrl(url) || "https://" <= CleanUrl(url)
  {
    match InitializeRequest(url, None, true)
    case None => NoResult
    case Some(request) =>
      match net.fetchPage(request)
      case PageFailed => Raised
      case Page(contentType, body) =>
        if Truthy(contentType) && Contains(contentType.value, "image") && |body| > 0 then Found(url)
        else if !(Truthy(contentType) && Contains(contentType.value, "html") && |body| > 0) then NoResult
        else FirstOutcome(Heuristics, net, lib, url, net.parseHtml(body), protocol)
  }

  /**
    `_ThumbnailOnlyScraper.scrape`: an image answers with its own URL, a
    page that is neither an image nor HTML (or is empty) has no thumbnail,
    and an HTML page goes through the heuristics in order.
   */
  method ScrapePage(net: Network, lib: UrlLib, url: string, protocol: string) returns (r: Outcome)
    ensures r == PageOutcome(net, lib, url, protocol)
  {
    var request := InitializeRequest(url, None, true);
    if request.None? {
      return NoResult;
    }
    var reply := net.fetchPage(request.value);
    if reply.PageFailed? {
      return Raised;
    }
    var contentType, content := reply.contentType, reply.body;
    if Truthy(contentType) && Contains(contentType.value, "image") && |content| > 0 {
      return Found(url);
    }
    if !(Truthy(contentType) && Contains(contentType.value, "html") && |content| > 0) {
      return NoResult;
    }
    var doc := net.parseHtml(content);
    for i := 0 to |Heuristics|
      invariant FirstOutcome(Heuristics, net, lib, url, doc, protocol) ==
        FirstOutcome(Heuristics[i..], net, lib, url, doc, protocol)
    {
      var result := RunHeuristic(Heuristics[i], net, lib, url, doc, protocol);
      if !result.NoResult? {
        return result;
      }
      assert Heuristics[i..][1..] == Heuristics[i + 1..];
    }
    return NoResult;
  }

  /**
    On an HTML page the Open Graph tag wins; failing that an `image_src`
    link answers, or raises when it has no `href` (so the images are never
    looked at); only then does the largest image decide.
   */
  lemma HeuristicOrder(net: Network, lib: UrlLib, page: string, doc: Document, protocol: string)
    ensures var r := FirstOutcome(Heuristics, net, lib, page, doc, protocol);
      var og := ScrapeOgUrl(lib, page, doc);
      var spec := ScrapeThumbnailSpec(lib, page, doc);
      && (og.Some? ==> r == Found(og.value))
      && (og.None? && !spec.NoResult? ==> r == spec)
      && (og.None? && spec.NoResult? ==> r == LargestImage(net, lib, page, doc, protocol))
  {
    var hs := Heuristics;
    assert hs[0] == OpenGraph && hs[1..][0] == ThumbnailSpecLink && hs[1..][1..][0] == LargestImageOnPage;
    assert |hs[1..][1..][1..]| == 0;
    var r3 := FirstOutcome(hs[1..][1..], net, lib, page, doc, protocol);
    assert r3 == LargestImage(net, lib, page, doc, protocol);
  }

  // ---------------------------------------------------------------------
  // _YouTubeScraper

  const OEmbedEndpoint: string := "https://www.youtube.com/oembed"

  /** The request `_fetch_from_youtube` sends. */
  function OEmbedRequest(url: string, maxwidth: nat): OEmbedQuery
  {
    OEmbedQuery(OEmbedEndpoint, [("url", url), ("format", "json"), ("maxwidth", NatToString(maxwidth))])
  }

  /**
    `_YouTubeScraper.scrape` on the decoded oEmbed answer: an empty answer is
    None, a non-empty object gives its `thumbnail_url` (None when missing),
    anything else raises.
   */
  function YouTubeOutcome(reply: OEmbedReply): (r: Outcome)
    ensures r.Found? <==> reply.JsonObject? && "thumbnail_url" in reply.fields && reply.fields["thumbnail_url"].Some?
    ensures r.Found? ==> r.url == reply.fields["thumbnail_url"].value
    ensures r.Raised? <==> reply.OEmbedFailed? || (reply.NotAnObject? && reply.truthy)
  {
    match reply
    case OEmbedFailed => Raised
    case NotAnObject(truthy) => if truthy then Raised else NoResult
    case JsonObject(fields) =>
      if |fields| == 0 then NoResult
      else if "thumbnail_url" in fields && fields["thumbnail_url"].Some? then Found(fields["thumbnail_url"].value)
      else NoResult
  }

  // ---------------------------------------------------------------------
  // get_thumbnail_url

  const DefaultMaxWidth: nat := 600

  function ScraperOutcome(net: Network, lib: UrlLib, scraper: Scraper): Outcome
  {
    match scraper
    case YouTubeScraper(url, maxwidth) => YouTubeOutcome(net.oembed(OEmbedRequest(url, maxwidth)))
    case ThumbnailOnlyScraper(url, protocol) => PageOutcome(net, lib, url, protocol)
  }

  /** What `get_thumbnail_url(url)` returns: every exception becomes None. */
  function ThumbnailUrlOf(net: Network, lib: UrlLib, url: string): (r: Option<string>)
    ensures var outcome := ScraperOutcome(net, lib, ForUrl(lib, url, DefaultMaxWidth, true));
      (r.Some? <==> outcome.Found?) && (r.Some? ==> r.value == outcome.url)
  {
    match ScraperOutcome(net, lib, ForUrl(lib, url, DefaultMaxWidth, true))
    case Found(u) => Some(u)
    case _ => None
  }

  /** `get_thumbnail_url`: picks the scraper for the URL, runs it, and turns any exception into None. */
  method GetThumbnailUrl(net: Network, lib: UrlLib, url: string) returns (r: Option<string>)
    ensures r == ThumbnailUrlOf(net, lib, url)
  {
    var scraper := ForUrl(lib, url, DefaultMaxWidth, true);
    var outcome: Outcome;
    match scraper {
      case YouTubeScraper(u, maxwidth) =>
        outcome := YouTubeOutcome(net.oembed(OEmbedRequest(u, maxwidth)));
      case ThumbnailOnlyScraper(u, protocol) =>
        outcome := ScrapePage(net, lib, u, protocol);
    }
    r := if outcome.Found? then Some(outcome.url) else None;
  }

  /** An ASCII prefix of a URL survives cleaning. */
  lemma {:induction false} CleanUrlKeepsAsciiPrefix(p: string, url: string)
    requires p <= url
    requires forall i :: 0 <= i < |p| ==> p[i] as int < 127
    ensures p <= CleanUrl(url)
  {
    assert url == p + url[|p|..];
    CleanUrlConcat(p, url[|p|..]);
  }

  /** A video-provider URL is an http or https URL before and after cleaning. */
  lemma YouTubeUrlIsWebUrl(url: string)
    requires YouTubeMatches(url)
    ensures "http://" <= CleanUrl(url) || "https://" <= CleanUrl(url)
  {
    YouTubeSchemes(url);
    if "http://" <= url {
      CleanUrlKeepsAsciiPrefix("http://", url);
    } else {
      CleanUrlKeepsAsciiPrefix("https://", url);
    }
  }

  /** A URL that does not clean to an http or https URL never has a thumbnail. */
  lemma NonWebUrlHasNoThumbnail(net: Network, lib: UrlLib, url: string)
    requires !("http://" <= CleanUrl(url) || "https://" <= CleanUrl(url))
    ensures ThumbnailUrlOf(net, lib, url) == None
  {
    assert !YouTubeMatches(url) by {
      if YouTubeMatches(url) {
        YouTubeUrlIsWebUrl(url);
      }
    }
    var scraper := ForUrl(lib, url, DefaultMaxWidth, true);
    assert PageOutcome(net, lib, url, scraper.protocol) == NoResult;
  }

  /** A video-provider URL is answered from the oEmbed service alone: no page or image is fetched. */
  lemma YouTubeNeedsOnlyOEmbed(net: Network, lib: UrlLib, url: string,
                               fetchPage: Request -> PageReply, open: Request -> ImageReply)
    requires YouTubeMatches(url)
    ensures ThumbnailUrlOf(net.(fetchPage := fetchPage, open := open), lib, url) == ThumbnailUrlOf(net, lib, url)
    ensures ThumbnailUrlOf(net, lib, url) ==
      match YouTubeOutcome(net.oembed(OEmbedRequest(url, DefaultMaxWidth)))
      case Found(u) => Some(u)
      case _ => None
  {
  }
}
