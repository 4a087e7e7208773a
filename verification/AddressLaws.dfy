// The addresses in the bytes themselves: what is written, and which texts are read as what.
module AddressLaws {
  import opened Bytes
  import opened Percent
  import opened PercentLaws
  import opened McpAddress
  import opened ReaderUrl

  /** The bytes of an ASCII text. */
  function Ascii(s: string): (text: Bytes)
    ensures |text| == |s|
  {
    seq(|s|, k requires 0 <= k < |s| => s[k] as int % 0x100)
  }

  lemma NamesAre()
    ensures SHELF == Ascii("geist://shelf") && SCHEME == Ascii("geist://")
    ensures BOOK == Ascii("book") && TOC == Ascii("toc") && TOPIC == Ascii("topic") && RESOURCE == Ascii("resource")
    ensures MARKDOWN == Ascii("markdown") && HTML == Ascii("html") && STORED == Ascii("stored") && WEB == Ascii("web")
  {
    ShelfAndScheme();
    NamesOfParts();
    NamesOfForms();
    hide Ascii;
  }

  lemma ShelfAndScheme()
    ensures SHELF == Ascii("geist://shelf") && SCHEME == Ascii("geist://")
  {
  }

  lemma NamesOfParts()
    ensures BOOK == Ascii("book") && TOC == Ascii("toc") && TOPIC == Ascii("topic") && RESOURCE == Ascii("resource")
  {
  }

  lemma NamesOfForms()
    ensures MARKDOWN == Ascii("markdown") && HTML == Ascii("html") && STORED == Ascii("stored") && WEB == Ascii("web")
  {
  }

  // ----- addresses of the shelf

  /** A path under the shelf: names between slashes. */
  function Under(parts: seq<Bytes>): Bytes {
    Ascii("geist://shelf/") + Slashed(parts)
  }

  function Slashed(parts: seq<Bytes>): Bytes {
    if parts == [] then [] else if |parts| == 1 then parts[0] else parts[0] + ['/' as int] + Slashed(parts[1..])
  }

  lemma {:induction false} JoinIsSlashed(parts: seq<Bytes>)
    ensures Join(parts) == Slashed(parts)
  {
    if |parts| > 1 { JoinIsSlashed(parts[1..]); }
  }

  lemma UriIsUnder(parts: seq<Bytes>)
    ensures UriOf(parts) == Under(parts)
  {
    NamesAre();
    JoinIsSlashed(parts);
    assert SHELF + [SLASH] == Ascii("geist://shelf/");
  }

  /** The addresses that are published, with every identifier percent-encoded. */
  lemma AddressesAre(book: Bytes, id: Bytes, flag: bool)
    ensures BookUri(book) == Under([Ascii("book"), Written(book)])
    ensures TocUri(book) == Under([Ascii("book"), Written(book), Ascii("toc")])
    ensures TopicUri(book, id, flag)
            == Under([Ascii("book"), Written(book), Ascii("topic"), Written(id),
                      Ascii(if flag then "html" else "markdown")])
    ensures ResourceUri(book, id, flag)
            == Under([Ascii("book"), Written(book), Ascii("resource"), Written(id),
                      Ascii(if flag then "web" else "stored")])
  {
    NamesAre();
    EncodesExactly(book);
    EncodesExactly(id);
    hide Encode, Written, UriOf, Under, Ascii;
    UriIsUnder([BOOK, Encode(book)]);
    UriIsUnder([BOOK, Encode(book), TOC]);
    UriIsUnder([BOOK, Encode(book), TOPIC, Encode(id), if flag then HTML else MARKDOWN]);
    UriIsUnder([BOOK, Encode(book), RESOURCE, Encode(id), if flag then WEB else STORED]);
  }

  /** The shelf comes first, then for every book its own address and that of its table of contents. */
  lemma {:induction false} PublishedInOrder(books: seq<Bytes>)
    ensures |Published(books)| == 1 + 2 * |books| && Published(books)[0] == Ascii("geist://shelf")
    ensures forall i | 0 <= i < |books| ::
              Published(books)[1 + 2 * i] == BookUri(books[i]) && Published(books)[2 + 2 * i] == TocUri(books[i])
  {
    hide BookUri, TocUri;
    NamesAre();
    if books != [] { PublishedInOrder(books[..|books| - 1]); }
  }

  // ----- routing

  predicate Slashless(part: Bytes) {
    forall k | 0 <= k < |part| :: part[k] != '/' as int
  }

  /** The parts of an address under the shelf. A slash may end it, which adds no part. */
  ghost predicate HasParts(uri: Bytes, parts: seq<Bytes>) {
    && (forall i | 0 <= i < |parts| :: Slashless(parts[i]))
    && ((uri == Under(parts) && parts != [] && parts[|parts| - 1] != []) || uri == Under(parts + [[]]))
  }

  /** What the parts name. */
  function NamedBy(parts: seq<Bytes>): Route {
    if |parts| < 2 || parts[0] != Ascii("book") || DecodeStrict(parts[1]).None? then NotFound
    else
      var book := DecodeStrict(parts[1]).value;
      if |parts| == 2 then Book(book)
      else if parts[2..] == [Ascii("toc")] then Toc(book)
      else if |parts| != 5 || DecodeStrict(parts[3]).None? then NotFound
      else
        var id := DecodeStrict(parts[3]).value;
        if parts[2] == Ascii("topic") && parts[4] == Ascii("markdown") then Topic(book, id, false)
        else if parts[2] == Ascii("topic") && parts[4] == Ascii("html") then Topic(book, id, true)
        else if parts[2] == Ascii("resource") && parts[4] == Ascii("stored") then Resource(book, id, false)
        else if parts[2] == Ascii("resource") && parts[4] == Ascii("web") then Resource(book, id, true)
        else NotFound
  }

  lemma PiecesAreNamed(parts: seq<Bytes>)
    ensures RouteOfPieces(parts) == NamedBy(parts)
  {
    NamesAre();
    NamesDiffer();
    hide Ascii, DecodeStrict;
    if |parts| == 3 { assert parts[2..] == [parts[2]]; }
  }

  lemma NamesDiffer()
    ensures TOPIC != RESOURCE && MARKDOWN != HTML && STORED != WEB
  {
    assert TOPIC[0] != RESOURCE[0] && MARKDOWN[0] != HTML[0] && STORED[0] != WEB[0];
  }

  lemma PartsAreRouted(uri: Bytes, parts: seq<Bytes>)
    requires HasParts(uri, parts)
    ensures RouteOf(uri) == NamedBy(parts)
  {
    hide NamedBy, RouteOf, Under, UriOf, RouteOfPieces;
    PiecesAreNamed(parts);
    var longer := parts + [[]];
    UriIsUnder(parts);
    UriIsUnder(longer);
    assert forall i | 0 <= i < |parts| :: HasNoSlash(parts[i]) by {
      forall i | 0 <= i < |parts| ensures HasNoSlash(parts[i]) { assert Slashless(parts[i]); }
    }
    if uri == Under(longer) {
      UriRoutes(longer);
      assert longer[..|longer| - 1] == parts;
    } else {
      UriRoutes(parts);
    }
  }

  /** Every path has parts. */
  lemma {:induction false} PathHasParts(path: Bytes) returns (parts: seq<Bytes>)
    ensures parts != [] && (forall i | 0 <= i < |parts| :: Slashless(parts[i])) && Slashed(parts) == path
    decreases |path|
  {
    var slash := IndexOf(path, '/' as int, 0);
    if slash == |path| {
      parts := [path];
    } else {
      var rest := PathHasParts(path[slash + 1..]);
      parts := [path[..slash]] + rest;
      assert parts[1..] == rest && path == path[..slash] + ['/' as int] + path[slash + 1..];
    }
  }

  /** An address is routed to the shelf, or where its parts say; an address outside the shelf is not found. */
  lemma RoutesExactly(uri: Bytes)
    ensures uri == Ascii("geist://shelf") ==> RouteOf(uri) == Shelf
    ensures forall parts | HasParts(uri, parts) :: RouteOf(uri) == NamedBy(parts)
    ensures uri != Ascii("geist://shelf") && (forall parts :: !HasParts(uri, parts)) ==> RouteOf(uri) == NotFound
  {
    NamesAre();
    forall parts | HasParts(uri, parts) ensures RouteOf(uri) == NamedBy(parts) { PartsAreRouted(uri, parts); }
    if uri != SHELF && SHELF <= uri && |uri| > |SHELF| && uri[|SHELF|] == SLASH {
      var path := uri[|SHELF| + 1..];
      var all := PathHasParts(path);
      assert uri == SHELF + [SLASH] + path;
      assert SHELF + [SLASH] == Ascii("geist://shelf/");
      hide RouteOf, NamedBy, Ascii, Slashed;
      var n := |all| - 1;
      if all[n] == [] {
        assert all == all[..n] + [[]];
        assert HasParts(uri, all[..n]);
      } else {
        assert HasParts(uri, all);
      }
    }
  }

  // ----- addresses of the reader

  /** The text in small letters. */
  predicate IsFolded(small: Bytes, text: Bytes) {
    && |small| == |text|
    && forall k | 0 <= k < |text| ::
         small[k] as int == if 'A' as int <= text[k] <= 'Z' as int then text[k] as int + 32 else text[k]
  }

  predicate Without(text: Bytes, b: Byte) {
    forall k | 0 <= k < |text| :: text[k] != b
  }

  function PathOf(kind: Kind): Bytes {
    if kind == TopicPage then Ascii("/topic/") else Ascii("/object/")
  }

  /** The scheme in any case, a host, the path of the kind and an encoded identifier, then perhaps a query, then perhaps
      a fragment. */
  ghost predicate IsUrl(url: Bytes, u: Url, scheme: Bytes, host: Bytes, id: Bytes, query: Bytes, fragment: Bytes) {
    && url == scheme + (host + (PathOf(u.kind) + id) + query + fragment)
    && IsFolded(Ascii("geist://"), scheme) && IsFolded(u.host, host)
    && Without(host, '/' as int) && Without(host, '?' as int) && Without(host, '#' as int)
    && Without(id, '?' as int) && Without(id, '#' as int) && Without(query, '#' as int)
    && (query == [] || query[0] == '?' as int) && (fragment == [] || fragment[0] == '#' as int)
    && u.id != [] && u.id == DecodeLenient(id)
    && u.fragment == DecodeLenient(if fragment == [] then [] else fragment[1..])
  }

  ghost predicate Spells(url: Bytes, u: Url) {
    exists scheme, host, id, query, fragment :: IsUrl(url, u, scheme, host, id, query, fragment)
  }

  lemma FoldedIsLower(small: Bytes, text: Bytes)
    ensures IsFolded(small, text) <==> small == LowerCase(text)
  {
  }

  lemma SchemeIsFolded(scheme: Bytes)
    ensures |scheme| == |SCHEME| && EqualsIgnoringCase(scheme, SCHEME) <==> IsFolded(Ascii("geist://"), scheme)
  {
    NamesAre();
    FoldedIsLower(SCHEME, scheme);
    assert LowerCase(SCHEME) == SCHEME;
  }

  lemma PathsAre(kind: Kind)
    ensures PathOf(kind) == if kind == TopicPage then TOPIC_PATH else OBJECT_PATH
    ensures |PathOf(kind)| > 1 && PathOf(kind)[0] == SLASH
    ensures Without(PathOf(kind), HASH) && Without(PathOf(kind), QUESTION)
    ensures TOPIC_PATH[1] != OBJECT_PATH[1]
  {
    assert TOPIC_PATH == Ascii("/topic/") && OBJECT_PATH == Ascii("/object/");
  }

  lemma FirstPlace(left: Bytes, right: Bytes, b: Byte)
    requires Without(left, b) && (right == [] || right[0] == b)
    ensures IndexOf(left + right, b, 0) == |left|
    ensures Before(left + right, b) == left && Behind(left + right, b) == if right == [] then [] else right[1..]
  {
    var all := left + right;
    assert forall k | 0 <= k < |left| :: all[k] == left[k];
    if right != [] { assert all[|left|] == right[0]; }
    IndexIs(all, b, |left|);
    assert all[..|left|] == left;
    if right != [] { assert all[|left| + 1..] == right[1..]; }
  }

  lemma WithoutConcat(a: Bytes, c: Bytes, b: Byte)
    ensures Without(a + c, b) <==> Without(a, b) && Without(c, b)
  {
    var all := a + c;
    assert forall k | 0 <= k < |a| :: all[k] == a[k];
    assert forall k | 0 <= k < |c| :: all[|a| + k] == c[k];
    if Without(all, b) {
      forall k | 0 <= k < |a| ensures a[k] != b { assert all[k] != b; }
      forall k | 0 <= k < |c| ensures c[k] != b { assert all[|a| + k] != b; }
    }
  }

  lemma SpelledIsRead(url: Bytes, u: Url, scheme: Bytes, host: Bytes, id: Bytes, query: Bytes, fragment: Bytes)
    requires IsUrl(url, u, scheme, host, id, query, fragment)
    ensures Parse(url) == Some(u)
  {
    hide IndexOf, Before, Behind, Without, IsFolded, DecodeLenient, LowerCase, EqualsIgnoringCase, Ascii, PathOf;
    var path := PathOf(u.kind) + id;
    var left := host + path + query;
    PathsAre(u.kind);
    WithoutConcat(PathOf(u.kind), id, HASH);
    WithoutConcat(PathOf(u.kind), id, QUESTION);
    WithoutConcat(host, path, HASH);
    WithoutConcat(host, path, QUESTION);
    WithoutConcat(host + path, query, HASH);
    FirstPlace(left, fragment, HASH);
    FirstPlace(host + path, query, QUESTION);
    assert path[0] == PathOf(u.kind)[0];
    FirstPlace(host, path, SLASH);
    SchemeIsFolded(scheme);
    assert url[..|SCHEME|] == scheme && url[|SCHEME|..] == left + fragment;
    assert (host + path)[..|host|] == host && (host + path)[|host|..] == path;
    FoldedIsLower(u.host, host);
    PathIsKind(u.kind, id, u.host, u.fragment);
  }

  lemma PathIsKind(kind: Kind, id: Bytes, host: Bytes, fragment: Bytes)
    ensures Located(host, PathOf(kind) + id, fragment) == Named(Url(kind, host, DecodeLenient(id), fragment))
  {
    PathsAre(kind);
    hide PathOf, DecodeLenient;
    var name := PathOf(kind);
    var path := name + id;
    assert path[..|name|] == name && path[|name|..] == id;
    if kind == ObjectPage { assert path[1] == name[1]; }
  }

  /** Cutting at the first place of a byte. */
  lemma Cut(text: Bytes, b: Byte) returns (right: Bytes)
    ensures text == Before(text, b) + right && Without(Before(text, b), b) && (right == [] || right[0] == b)
    ensures Behind(text, b) == if right == [] then [] else right[1..]
  {
    right := text[IndexOf(text, b, 0)..];
  }

  lemma ReadIsSpelled(url: Bytes)
    requires Parse(url).Some?
    ensures Spells(url, Parse(url).value)
  {
    hide IndexOf, Before, Behind, Without, IsFolded, DecodeLenient, LowerCase, EqualsIgnoringCase, Ascii, PathOf;
    var scheme, all := url[..|SCHEME|], url[|SCHEME|..];
    SchemeIsFolded(scheme);
    var fragment := Cut(all, HASH);
    var left := Before(all, HASH);
    var query := Cut(left, QUESTION);
    var rest := Before(left, QUESTION);
    WithoutConcat(rest, query, HASH);
    var path := SlashCut(rest);
    var host := rest[..IndexOf(rest, SLASH, 0)];
    WithoutConcat(host, path, HASH);
    WithoutConcat(host, path, QUESTION);
    var u := Parse(url).value;
    PathsAre(u.kind);
    FoldedIsLower(u.host, host);
    var name := PathOf(u.kind);
    var id := path[|name|..];
    assert path == name + id;
    WithoutConcat(name, id, HASH);
    WithoutConcat(name, id, QUESTION);
    assert url == scheme + (host + (name + id) + query + fragment);
    assert IsUrl(url, u, scheme, host, id, query, fragment);
  }

  lemma SlashCut(rest: Bytes) returns (path: Bytes)
    ensures var slash := IndexOf(rest, SLASH, 0);
            rest == rest[..slash] + path && path == rest[slash..] && Without(rest[..slash], SLASH)
  {
    path := rest[IndexOf(rest, SLASH, 0)..];
  }

  /** An address is read exactly where it spells one, and as that. */
  lemma ParsesExactly(url: Bytes, u: Url)
    ensures Parse(url) == Some(u) <==> Spells(url, u)
  {
    hide Parse, IsUrl;
    if Parse(url) == Some(u) { ReadIsSpelled(url); }
    if Spells(url, u) {
      var scheme, host, id, query, fragment :| IsUrl(url, u, scheme, host, id, query, fragment);
      SpelledIsRead(url, u, scheme, host, id, query, fragment);
    }
  }

  /** What the reader writes. */
  lemma WrittenUrlsAre(host: Bytes, id: Bytes, fragment: Bytes)
    ensures TopicUrl(host, id, fragment)
            == Ascii("geist://") + (host + (Ascii("/topic/") + Written(id))
                                    + if fragment == [] then [] else ['#' as int] + Written(fragment))
    ensures ObjectUrl(host, id) == Ascii("geist://") + (host + (Ascii("/object/") + Written(id)))
  {
    NamesAre();
    EncodesExactly(id);
    EncodesExactly(fragment);
    PathsAre(TopicPage);
    PathsAre(ObjectPage);
    hide Ascii, Encode, Written;
  }
}
