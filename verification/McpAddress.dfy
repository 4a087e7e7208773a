// The resource addresses that mcp.cpp publishes, and how it routes an address back.
module McpAddress {
  import opened Bytes
  import opened Percent

  /** geist://shelf */
  const SHELF: Bytes :=
    ['g' as int, 'e' as int, 'i' as int, 's' as int, 't' as int, ':' as int, '/' as int, '/' as int,
     's' as int, 'h' as int, 'e' as int, 'l' as int, 'f' as int]
  const BOOK: Bytes := ['b' as int, 'o' as int, 'o' as int, 'k' as int]
  const TOC: Bytes := ['t' as int, 'o' as int, 'c' as int]
  const TOPIC: Bytes := ['t' as int, 'o' as int, 'p' as int, 'i' as int, 'c' as int]
  const RESOURCE: Bytes :=
    ['r' as int, 'e' as int, 's' as int, 'o' as int, 'u' as int, 'r' as int, 'c' as int, 'e' as int]
  const MARKDOWN: Bytes :=
    ['m' as int, 'a' as int, 'r' as int, 'k' as int, 'd' as int, 'o' as int, 'w' as int, 'n' as int]
  const HTML: Bytes := ['h' as int, 't' as int, 'm' as int, 'l' as int]
  const STORED: Bytes := ['s' as int, 't' as int, 'o' as int, 'r' as int, 'e' as int, 'd' as int]
  const WEB: Bytes := ['w' as int, 'e' as int, 'b' as int]

  // ----- paths

  /** The first place of a byte from `at` on; the end of the text where there is none. */
  function IndexOf(text: Bytes, b: Byte, at: nat): (i: nat)
    requires at <= |text|
    ensures at <= i <= |text| && (i < |text| ==> text[i] == b)
    ensures forall k | at <= k < i :: text[k] != b
    decreases |text| - at
  {
    if at == |text| || text[at] == b then at else IndexOf(text, b, at + 1)
  }

  /** The pieces of a path. Nothing follows a slash that ends it. */
  function Pieces(path: Bytes): seq<Bytes> {
    if path == [] then []
    else
      var slash := IndexOf(path, SLASH, 0);
      if slash == |path| then [path] else [path[..slash]] + Pieces(path[slash + 1..])
  }

  /** `split_path`. */
  method SplitPath(whole: Bytes) returns (result: seq<Bytes>)
    ensures result == Pieces(whole)
  {
    result := [];
    var path := whole;
    while path != []
      invariant result + Pieces(path) == Pieces(whole)
      decreases |path|
    {
      var slash := IndexOf(path, SLASH, 0);
      ghost var before := result;
      result := result + [path[..slash]];
      if slash == |path| {
        assert path[..slash] == path;
        return;
      }
      Associate(before, [path[..slash]], Pieces(path[slash + 1..]));
      path := path[slash + 1..];
    }
    assert result + [] == result;
  }

  /** Pieces with slashes between them. */
  function Join(pieces: seq<Bytes>): Bytes {
    if pieces == [] then []
    else if |pieces| == 1 then pieces[0]
    else pieces[0] + [SLASH] + Join(pieces[1..])
  }

  predicate HasNoSlash(piece: Bytes) {
    forall k | 0 <= k < |piece| :: piece[k] != SLASH
  }

  /** Splitting undoes joining, except that an empty last piece is not seen. */
  lemma {:induction false} JoinedSplits(pieces: seq<Bytes>)
    requires pieces != [] && forall i | 0 <= i < |pieces| :: HasNoSlash(pieces[i])
    ensures Pieces(Join(pieces))
            == if pieces[|pieces| - 1] == [] then pieces[..|pieces| - 1] else pieces
  {
    hide Pieces;
    var first := pieces[0];
    if |pieces| == 1 {
      assert pieces == [first];
      OnePiece(first);
    } else {
      var rest := pieces[1..];
      JoinedSplits(rest);
      PiecesNext(first, Join(rest));
      assert Join(pieces) == first + ([SLASH] + Join(rest));
      assert pieces == [first] + rest;
      assert pieces[..|pieces| - 1] == [first] + rest[..|rest| - 1];
    }
  }

  lemma OnePiece(piece: Bytes)
    requires HasNoSlash(piece)
    ensures Pieces(piece) == if piece == [] then [] else [piece]
  {
  }

  lemma PiecesNext(first: Bytes, rest: Bytes)
    requires HasNoSlash(first)
    ensures Pieces(first + ([SLASH] + rest)) == [first] + Pieces(rest)
  {
    hide IndexOf;
    SlashEnds(first, rest);
    var path := first + ([SLASH] + rest);
    assert path[|first| + 1..] == rest && path[..|first|] == first;
  }

  lemma SlashEnds(first: Bytes, rest: Bytes)
    requires HasNoSlash(first)
    ensures IndexOf(first + ([SLASH] + rest), SLASH, 0) == |first|
  {
    var path := first + ([SLASH] + rest);
    assert path[|first|] == SLASH;
    assert forall k | 0 <= k < |first| :: path[k] == first[k];
  }

  // ----- routing

  datatype Route =
    | Shelf
    | Book(book: Bytes)
    | Toc(book: Bytes)
    | Topic(book: Bytes, topic: Bytes, html: bool)
    | Resource(book: Bytes, resource: Bytes, web: bool)
    | NotFound

  function RouteOfPieces(parts: seq<Bytes>): Route {
    if |parts| < 2 || parts[0] != BOOK then NotFound
    else match DecodeStrict(parts[1])
      case None => NotFound
      case Some(book) =>
        if |parts| == 2 then Book(book)
        else if |parts| == 3 && parts[2] == TOC then Toc(book)
        else if |parts| == 5 && parts[2] == TOPIC && (parts[4] == MARKDOWN || parts[4] == HTML) then
          match DecodeStrict(parts[3])
          case None => NotFound
          case Some(topic) => Topic(book, topic, parts[4] == HTML)
        else if |parts| == 5 && parts[2] == RESOURCE && (parts[4] == STORED || parts[4] == WEB) then
          match DecodeStrict(parts[3])
          case None => NotFound
          case Some(resource) => Resource(book, resource, parts[4] == WEB)
        else NotFound
  }

  function RouteOf(uri: Bytes): Route {
    if uri == SHELF then Shelf
    else if !(SHELF <= uri) || |uri| <= |SHELF| || uri[|SHELF|] != SLASH then NotFound
    else RouteOfPieces(Pieces(uri[|SHELF| + 1..]))
  }

  /** The branches of `read_resource`, up to the call that fetches the resource. */
  method ReadRoute(uri: Bytes) returns (route: Route)
    ensures route == RouteOf(uri)
  {
    if uri == SHELF { return Shelf; }
    if !(SHELF <= uri) || |uri| <= |SHELF| || uri[|SHELF|] != SLASH { return NotFound; }
    var parts := SplitPath(uri[|SHELF| + 1..]);
    if |parts| < 2 || parts[0] != BOOK { return NotFound; }
    var book := UriDecode(parts[1]);
    if book.None? { return NotFound; }
    if |parts| == 2 { return Book(book.value); }
    if |parts| == 3 && parts[2] == TOC { return Toc(book.value); }
    if |parts| == 5 && parts[2] == TOPIC && (parts[4] == MARKDOWN || parts[4] == HTML) {
      var topic := UriDecode(parts[3]);
      if topic.None? { return NotFound; }
      return Topic(book.value, topic.value, parts[4] == HTML);
    }
    if |parts| == 5 && parts[2] == RESOURCE && (parts[4] == STORED || parts[4] == WEB) {
      var resource := UriDecode(parts[3]);
      if resource.None? { return NotFound; }
      return Resource(book.value, resource.value, parts[4] == WEB);
    }
    return NotFound;
  }

  // ----- the addresses

  function UriOf(pieces: seq<Bytes>): Bytes {
    SHELF + [SLASH] + Join(pieces)
  }

  function BookUri(id: Bytes): Bytes {
    UriOf([BOOK, Encode(id)])
  }

  function TocUri(id: Bytes): Bytes {
    UriOf([BOOK, Encode(id), TOC])
  }

  function TopicUri(book: Bytes, topic: Bytes, html: bool): Bytes {
    UriOf([BOOK, Encode(book), TOPIC, Encode(topic), if html then HTML else MARKDOWN])
  }

  function ResourceUri(book: Bytes, resource: Bytes, web: bool): Bytes {
    UriOf([BOOK, Encode(book), RESOURCE, Encode(resource), if web then WEB else STORED])
  }

  /** The addresses of a shelf: its own, and two for every book. */
  function Published(books: seq<Bytes>): seq<Bytes> {
    if books == [] then [SHELF]
    else Published(books[..|books| - 1]) + [BookUri(books[|books| - 1]), TocUri(books[|books| - 1])]
  }

  /** `list_resources`. */
  method ListResources(books: seq<Bytes>) returns (uris: seq<Bytes>)
    ensures uris == Published(books)
  {
    uris := [SHELF];
    for i := 0 to |books|
      invariant uris == Published(books[..i])
    {
      var encoded := EncodeSegment(books[i]);
      var prefix := SHELF + [SLASH] + BOOK + [SLASH] + encoded;
      assert books[..i + 1][..i] == books[..i];
      JoinsTwo(encoded);
      uris := uris + [prefix];
      uris := uris + [prefix + [SLASH] + TOC];
    }
    assert books[..|books|] == books;
  }

  lemma JoinsTwo(encoded: Bytes)
    ensures UriOf([BOOK, encoded]) == SHELF + [SLASH] + BOOK + [SLASH] + encoded
    ensures UriOf([BOOK, encoded, TOC]) == SHELF + [SLASH] + BOOK + [SLASH] + encoded + [SLASH] + TOC
  {
    var two, three := [BOOK, encoded], [BOOK, encoded, TOC];
    assert two[1..] == [encoded] && three[1..] == [encoded, TOC] && [encoded, TOC][1..] == [TOC];
    assert Join(two) == BOOK + [SLASH] + encoded;
    assert Join([encoded, TOC]) == encoded + [SLASH] + TOC;
    assert Join(three) == BOOK + [SLASH] + (encoded + [SLASH] + TOC);
  }

  lemma EncodedHasNoSlash(id: Bytes)
    ensures HasNoSlash(Encode(id)) && (Encode(id) == [] <==> id == [])
  {
    EncodedBytes(id);
    forall k | 0 <= k < |Encode(id)| ensures Encode(id)[k] != SLASH { assert Encode(id)[k] in Encode(id); }
  }

  lemma NamesHaveNoSlash()
    ensures HasNoSlash(BOOK) && HasNoSlash(TOC) && HasNoSlash(TOPIC) && HasNoSlash(RESOURCE)
    ensures HasNoSlash(MARKDOWN) && HasNoSlash(HTML) && HasNoSlash(STORED) && HasNoSlash(WEB)
  {
  }

  lemma UriRoutes(pieces: seq<Bytes>)
    requires pieces != [] && forall i | 0 <= i < |pieces| :: HasNoSlash(pieces[i])
    ensures RouteOf(UriOf(pieces))
            == RouteOfPieces(if pieces[|pieces| - 1] == [] then pieces[..|pieces| - 1] else pieces)
  {
    hide RouteOfPieces, Join, HasNoSlash, Pieces;
    var uri := UriOf(pieces);
    assert uri == SHELF + ([SLASH] + Join(pieces));
    assert uri[..|SHELF|] == SHELF && uri[|SHELF|] == SLASH && uri[|SHELF| + 1..] == Join(pieces);
    JoinedSplits(pieces);
  }

  /** A published book address is routed to its own book exactly when the identifier is not empty and holds no slash
      and no NUL; otherwise it is not found. */
  lemma BookAddressResolves(id: Bytes)
    ensures RouteOf(BookUri(id)) == if id != [] && IsPathSafe(id) then Book(id) else NotFound
  {
    EncodedHasNoSlash(id);
    StrictRoundTrip(id);
    NamesHaveNoSlash();
    hide RouteOf, UriOf, Encode, DecodeStrict, HasNoSlash, IsPathSafe;
    UriRoutes([BOOK, Encode(id)]);
  }

  /** A published table of contents is found for an empty identifier too. */
  lemma TocAddressResolves(id: Bytes)
    ensures RouteOf(TocUri(id)) == if IsPathSafe(id) then Toc(id) else NotFound
  {
    EncodedHasNoSlash(id);
    StrictRoundTrip(id);
    NamesHaveNoSlash();
    hide RouteOf, UriOf, Encode, DecodeStrict, HasNoSlash, IsPathSafe;
    UriRoutes([BOOK, Encode(id), TOC]);
  }

  lemma TopicAddressResolves(book: Bytes, topic: Bytes, html: bool)
    ensures RouteOf(TopicUri(book, topic, html))
            == if IsPathSafe(book) && IsPathSafe(topic) then Topic(book, topic, html) else NotFound
  {
    EncodedHasNoSlash(book);
    EncodedHasNoSlash(topic);
    StrictRoundTrip(book);
    StrictRoundTrip(topic);
    NamesHaveNoSlash();
    hide RouteOf, UriOf, Encode, DecodeStrict, HasNoSlash, IsPathSafe;
    UriRoutes([BOOK, Encode(book), TOPIC, Encode(topic), if html then HTML else MARKDOWN]);
  }

  lemma ResourceAddressResolves(book: Bytes, resource: Bytes, web: bool)
    ensures RouteOf(ResourceUri(book, resource, web))
            == if IsPathSafe(book) && IsPathSafe(resource) then Resource(book, resource, web) else NotFound
  {
    EncodedHasNoSlash(book);
    EncodedHasNoSlash(resource);
    StrictRoundTrip(book);
    StrictRoundTrip(resource);
    NamesHaveNoSlash();
    hide RouteOf, UriOf, Encode, DecodeStrict, HasNoSlash, IsPathSafe;
    UriRoutes([BOOK, Encode(book), RESOURCE, Encode(resource), if web then WEB else STORED]);
  }

  /** Every address that a shelf publishes is found, exactly when every identifier is one that resolves. */
  lemma {:induction false} PublishedAddressesAreFound(books: seq<Bytes>)
    ensures (forall uri | uri in Published(books) :: RouteOf(uri) != NotFound)
            <==> forall id | id in books :: id != [] && IsPathSafe(id)
  {
    hide RouteOf, BookUri, TocUri, IsPathSafe;
    if books == [] {
      ShelfIsFound();
    } else {
      var front, last := books[..|books| - 1], books[|books| - 1];
      PublishedAddressesAreFound(front);
      BookAddressResolves(last);
      TocAddressResolves(last);
      var book, toc, earlier := BookUri(last), TocUri(last), Published(front);
      assert Published(books) == earlier + [book, toc];
      assert forall uri :: uri in Published(books) <==> uri in earlier || uri == book || uri == toc;
      assert forall id :: id in books <==> id in front || id == last by { assert books == front + [last]; }
      assert book in Published(books);
    }
  }

  /** A book without an identifier is published, and its address is not found, though its table of contents is. */
  lemma EmptyIdentifierIsLost()
    ensures BookUri([]) in Published([[]]) && RouteOf(BookUri([])) == NotFound && RouteOf(TocUri([])) == Toc([])
  {
    BookAddressResolves([]);
    TocAddressResolves([]);
  }

  /** A book whose identifier holds a slash is published, and neither of its addresses is found. */
  lemma SlashIdentifierIsLost()
    ensures BookUri([SLASH]) in Published([[SLASH]]) && TocUri([SLASH]) in Published([[SLASH]])
    ensures RouteOf(BookUri([SLASH])) == NotFound && RouteOf(TocUri([SLASH])) == NotFound
  {
    BookAddressResolves([SLASH]);
    TocAddressResolves([SLASH]);
    assert !IsPathSafe([SLASH]) by { assert [SLASH][0] == SLASH; }
  }

  lemma ShelfIsFound()
    ensures RouteOf(SHELF) == Shelf
  {
  }
}
