// The addresses that the reader gives its pages, and how it reads them back (book_source.cpp).
module ReaderUrl {
  import opened Bytes
  import opened Percent
  import opened McpAddress

  /** geist:// */
  const SCHEME: Bytes :=
    ['g' as int, 'e' as int, 'i' as int, 's' as int, 't' as int, ':' as int, '/' as int, '/' as int]
  /** /topic/ */
  const TOPIC_PATH: Bytes := [SLASH] + TOPIC + [SLASH]
  const OBJECT: Bytes := ['o' as int, 'b' as int, 'j' as int, 'e' as int, 'c' as int, 't' as int]
  /** /object/ */
  const OBJECT_PATH: Bytes := [SLASH] + OBJECT + [SLASH]
  const HASH: Byte := '#' as int
  const QUESTION: Byte := '?' as int

  datatype Kind = TopicPage | ObjectPage

  datatype Url = Url(kind: Kind, host: Bytes, id: Bytes, fragment: Bytes)

  function LowerCase(text: Bytes): (lower: Bytes)
    ensures |lower| == |text|
  {
    seq(|text|, k requires 0 <= k < |text| => Lower(text[k]))
  }

  /** `equals_ignoring_case`. */
  predicate EqualsIgnoringCase(a: Bytes, b: Bytes) {
    LowerCase(a) == LowerCase(b)
  }

  /** What stands before the first place of a byte. */
  function Before(text: Bytes, b: Byte): Bytes {
    text[..IndexOf(text, b, 0)]
  }

  /** What stands after the first place of a byte. */
  function Behind(text: Bytes, b: Byte): Bytes {
    var i := IndexOf(text, b, 0);
    if i < |text| then text[i + 1..] else []
  }

  /** The address of a path on a host. */
  function Located(host: Bytes, path: Bytes, fragment: Bytes): Option<Url> {
    if TOPIC_PATH <= path then Named(Url(TopicPage, host, DecodeLenient(path[|TOPIC_PATH|..]), fragment))
    else if OBJECT_PATH <= path then Named(Url(ObjectPage, host, DecodeLenient(path[|OBJECT_PATH|..]), fragment))
    else None
  }

  function Named(url: Url): Option<Url> {
    if url.id == [] then None else Some(url)
  }

  function Parse(url: Bytes): Option<Url> {
    if |url| < |SCHEME| || !EqualsIgnoringCase(url[..|SCHEME|], SCHEME) then None
    else
      var all := url[|SCHEME|..];
      var rest := Before(Before(all, HASH), QUESTION);
      var slash := IndexOf(rest, SLASH, 0);
      if slash == |rest| then None
      else Located(LowerCase(rest[..slash]), rest[slash..], DecodeLenient(Behind(all, HASH)))
  }

  /** `parse_url`. */
  method ParseUrl(url: Bytes) returns (parsed: Option<Url>)
    ensures parsed == Parse(url)
  {
    if |url| < |SCHEME| || !EqualsIgnoringCase(url[..|SCHEME|], SCHEME) { return None; }
    var rest := url[|SCHEME|..];
    var fragment: Bytes := [];
    var hash := IndexOf(rest, HASH, 0);
    if hash != |rest| {
      fragment := DecodeSegment(rest[hash + 1..]);
      rest := rest[..hash];
    } else {
      assert rest[..hash] == rest;
    }
    var query := IndexOf(rest, QUESTION, 0);
    if query != |rest| { rest := rest[..query]; } else { assert rest[..query] == rest; }
    var slash := IndexOf(rest, SLASH, 0);
    if slash == |rest| { return None; }
    var host: Bytes := rest[..slash];
    for k := 0 to |host|
      invariant |host| == slash
      invariant forall i | 0 <= i < slash :: host[i] == if i < k then Lower(rest[i]) else rest[i]
    {
      host := host[k := Lower(host[k])];
    }
    assert host == LowerCase(rest[..slash]);
    var path := rest[slash..];
    var kind, id;
    if TOPIC_PATH <= path {
      kind := TopicPage;
      id := DecodeSegment(path[|TOPIC_PATH|..]);
    } else if OBJECT_PATH <= path {
      kind := ObjectPage;
      id := DecodeSegment(path[|OBJECT_PATH|..]);
    } else {
      return None;
    }
    if id == [] { return None; }
    return Some(Url(kind, host, id, fragment));
  }

  /** `topic_url`. */
  function TopicUrl(host: Bytes, id: Bytes, fragment: Bytes): Bytes {
    SCHEME + (host + (TOPIC_PATH + Encode(id)) + if fragment == [] then [] else [HASH] + Encode(fragment))
  }

  /** `object_url`. */
  function ObjectUrl(host: Bytes, id: Bytes): Bytes {
    SCHEME + (host + (OBJECT_PATH + Encode(id)))
  }

  /** A host that an address can name: in lower case, and free of the bytes that end it. */
  predicate IsPlainHost(host: Bytes) {
    && (forall k | 0 <= k < |host| :: host[k] != SLASH && host[k] != QUESTION && host[k] != HASH)
    && LowerCase(host) == host
  }

  lemma IndexIs(text: Bytes, b: Byte, i: nat)
    requires i <= |text| && (forall k | 0 <= k < i :: text[k] != b) && (i < |text| ==> text[i] == b)
    ensures IndexOf(text, b, 0) == i
  {
  }

  /** Where a host stands first, it is read up to its first slash, question mark or hash sign. */
  lemma HostIsRead(host: Bytes, tail: Bytes, fragment: Bytes)
    requires tail != [] && tail[0] == SLASH
    requires forall k | 0 <= k < |tail| :: tail[k] != HASH && tail[k] != QUESTION
    requires fragment == [] || fragment[0] == HASH
    requires forall k | 0 <= k < |host| :: host[k] != SLASH && host[k] != QUESTION && host[k] != HASH
    ensures var all := host + tail + fragment;
            && Before(Before(all, HASH), QUESTION) == host + tail
            && Behind(all, HASH) == (if fragment == [] then [] else fragment[1..])
            && IndexOf(host + tail, SLASH, 0) == |host|
  {
    var all, rest := host + tail + fragment, host + tail;
    forall k | 0 <= k < |rest| ensures all[k] != HASH && rest[k] != QUESTION && rest[k] == all[k] {
      if k >= |host| { assert rest[k] == tail[k - |host|]; }
    }
    if fragment != [] { assert all[|rest|] == fragment[0]; }
    IndexIs(all, HASH, |rest|);
    assert all[..|rest|] == rest;
    IndexIs(rest, QUESTION, |rest|);
    assert rest[..|rest|] == rest;
    assert rest[|host|] == tail[0];
    assert forall k | 0 <= k < |host| :: rest[k] == host[k];
    IndexIs(rest, SLASH, |host|);
    if fragment != [] { assert all[|rest| + 1..] == fragment[1..]; }
  }

  /** A host that holds one of those bytes is never read back whole. */
  lemma HostIsCut(host: Bytes, tail: Bytes)
    requires exists k :: 0 <= k < |host| && host[k] in {SLASH, QUESTION, HASH}
    ensures var rest := Before(Before(host + tail, HASH), QUESTION);
            var slash := IndexOf(rest, SLASH, 0);
            slash == |rest| || slash < |host|
  {
    var all := host + tail;
    var k :| 0 <= k < |host| && host[k] in {SLASH, QUESTION, HASH};
    assert all[k] == host[k];
    var one := Before(all, HASH);
    var rest := Before(one, QUESTION);
    if host[k] == HASH {
      assert |one| <= k;
    } else if host[k] == QUESTION {
      if k < |one| { assert one[k] == QUESTION; }
      assert |rest| <= k;
    } else if k < |rest| {
      assert rest[k] == SLASH;
    }
  }

  lemma SchemeIsRead(rest: Bytes)
    ensures var url := SCHEME + rest;
            |url| >= |SCHEME| && EqualsIgnoringCase(url[..|SCHEME|], SCHEME) && url[|SCHEME|..] == rest
  {
    assert (SCHEME + rest)[..|SCHEME|] == SCHEME;
  }

  lemma EncodedIsPlain(path: Bytes, id: Bytes)
    requires forall k | 0 <= k < |path| :: path[k] != HASH && path[k] != QUESTION
    ensures forall k | 0 <= k < |path + Encode(id)| :: (path + Encode(id))[k] != HASH && (path + Encode(id))[k] != QUESTION
  {
    EncodedBytes(id);
    var all := path + Encode(id);
    forall k | 0 <= k < |all| ensures all[k] != HASH && all[k] != QUESTION {
      if k >= |path| { assert all[k] == Encode(id)[k - |path|] && Encode(id)[k - |path|] in Encode(id); }
    }
  }

  function FragmentPart(fragment: Bytes): Bytes {
    if fragment == [] then [] else [HASH] + Encode(fragment)
  }

  /** An address of either kind. */
  function UrlOf(url: Url): Bytes {
    SCHEME + (url.host + ((if url.kind == TopicPage then TOPIC_PATH else OBJECT_PATH) + Encode(url.id))
              + FragmentPart(url.fragment))
  }

  lemma UrlsAreThese(host: Bytes, id: Bytes, fragment: Bytes)
    ensures TopicUrl(host, id, fragment) == UrlOf(Url(TopicPage, host, id, fragment))
    ensures ObjectUrl(host, id) == UrlOf(Url(ObjectPage, host, id, []))
  {
    assert host + (OBJECT_PATH + Encode(id)) + [] == host + (OBJECT_PATH + Encode(id));
  }

  lemma PathIsLocated(host: Bytes, kind: Kind, id: Bytes, fragment: Bytes)
    ensures var path := (if kind == TopicPage then TOPIC_PATH else OBJECT_PATH) + Encode(id);
            Located(host, path, fragment) == if id == [] then None else Some(Url(kind, host, id, fragment))
  {
    hide Encode, DecodeLenient;
    LenientRoundTrip(id);
    var name := if kind == TopicPage then TOPIC_PATH else OBJECT_PATH;
    var path := name + Encode(id);
    assert path[..|name|] == name && path[|name|..] == Encode(id);
    if kind == ObjectPage { assert path[1] == 'o' as int; }
  }

  lemma PathsArePlain()
    ensures forall k | 0 <= k < |TOPIC_PATH| :: TOPIC_PATH[k] != HASH && TOPIC_PATH[k] != QUESTION
    ensures forall k | 0 <= k < |OBJECT_PATH| :: OBJECT_PATH[k] != HASH && OBJECT_PATH[k] != QUESTION
    ensures TOPIC_PATH[0] == SLASH && OBJECT_PATH[0] == SLASH
  {
  }

  /** On a host that nothing cuts, an address is read back with the host in lower case. */
  lemma PlainUrlIsRead(url: Url)
    requires forall k | 0 <= k < |url.host| :: url.host[k] != SLASH && url.host[k] != QUESTION && url.host[k] != HASH
    ensures Parse(UrlOf(url)) == if url.id == [] then None else Some(url.(host := LowerCase(url.host)))
  {
    PathsArePlain();
    hide IndexOf, Before, Behind, Encode, DecodeLenient, EqualsIgnoringCase, Located, LowerCase;
    var name := if url.kind == TopicPage then TOPIC_PATH else OBJECT_PATH;
    var tail, ending := name + Encode(url.id), FragmentPart(url.fragment);
    var all := url.host + tail + ending;
    EncodedIsPlain(name, url.id);
    assert tail[0] == name[0] == SLASH;
    HostIsRead(url.host, tail, ending);
    SchemeIsRead(all);
    assert (url.host + tail)[..|url.host|] == url.host && (url.host + tail)[|url.host|..] == tail;
    LenientRoundTrip(url.fragment);
    NothingIsRead();
    if url.fragment != [] { assert ending[1..] == Encode(url.fragment); }
    PathIsLocated(LowerCase(url.host), url.kind, url.id, url.fragment);
  }

  lemma NothingIsRead()
    ensures DecodeLenient([]) == []
  {
  }

  /** On a host that something cuts, an address is refused or read with a shorter host. */
  lemma CutUrlIsNotRead(url: Url)
    requires exists k :: 0 <= k < |url.host| && url.host[k] in {SLASH, QUESTION, HASH}
    ensures Parse(UrlOf(url)).Some? ==> |Parse(UrlOf(url)).value.host| < |url.host|
  {
    hide IndexOf, Before, Behind, Encode, DecodeLenient, EqualsIgnoringCase;
    var name := if url.kind == TopicPage then TOPIC_PATH else OBJECT_PATH;
    var tail := name + Encode(url.id) + FragmentPart(url.fragment);
    assert url.host + (name + Encode(url.id)) + FragmentPart(url.fragment) == url.host + tail;
    SchemeIsRead(url.host + tail);
    HostIsCut(url.host, tail);
  }

  /** An address of the reader is read back whole exactly when its identifier is not empty and its host is in lower
      case and holds no slash, question mark or hash sign. */
  lemma UrlComesBack(url: Url)
    ensures Parse(UrlOf(url)) == Some(url) <==> url.id != [] && IsPlainHost(url.host)
  {
    hide Parse, UrlOf, LowerCase;
    if forall k | 0 <= k < |url.host| :: url.host[k] != SLASH && url.host[k] != QUESTION && url.host[k] != HASH {
      PlainUrlIsRead(url);
    } else {
      CutUrlIsNotRead(url);
    }
  }

  /** The same for the two kinds of address that the reader writes. */
  lemma TopicUrlComesBack(host: Bytes, id: Bytes, fragment: Bytes)
    ensures Parse(TopicUrl(host, id, fragment)) == Some(Url(TopicPage, host, id, fragment)) <==> id != [] && IsPlainHost(host)
    ensures Parse(ObjectUrl(host, id)) == Some(Url(ObjectPage, host, id, [])) <==> id != [] && IsPlainHost(host)
  {
    hide Parse, UrlOf;
    UrlsAreThese(host, id, fragment);
    UrlComesBack(Url(TopicPage, host, id, fragment));
    UrlComesBack(Url(ObjectPage, host, id, []));
  }
}
