/** internal/storage/storage.go: the names and URLs of stored files, and the put, link, compensate
    sequence of internal/server/upload.go over them.
 */
module ObjectStorage {
  import opened Prelude

  const MAX_PHOTO_BYTES: int := 8 * 1024 * 1024

  function Extension(contentType: string): Option<string> {
    if contentType == "image/jpeg" then Some(".jpg")
    else if contentType == "image/png" then Some(".png")
    else if contentType == "image/webp" then Some(".webp")
    else if contentType == "application/pdf" then Some(".pdf")
    else None
  }

  // ---------------------------------------------------------------- the path of a URL

  predicate InScheme(c: char) {
    'a' <= c <= 'z' || 'A' <= c <= 'Z' || '0' <= c <= '9' || c == '+' || c == '-' || c == '.'
  }

  /** What follows the scheme and its colon (section 3.1 of RFC 3986). */
  function AfterScheme(raw: string): Option<string> {
    if raw == "" then None
    else if raw[0] == ':' then Some(raw[1..])
    else if InScheme(raw[0]) then AfterScheme(raw[1..])
    else None
  }

  function UpTo(s: string, c: char): string {
    if s == "" || s[0] == c then "" else [s[0]] + UpTo(s[1..], c)
  }

  function FromSlash(s: string): string {
    if s == "" || s[0] == '/' then s else FromSlash(s[1..])
  }

  predicate Letter(c: char) { 'a' <= c <= 'z' || 'A' <= c <= 'Z' }

  predicate InHost(c: char) {
    || Letter(c) || '0' <= c <= '9' || c as int >= 0x80
    || c in {'-', '_', '.', '~', '!', '$', '&', '\'', '(', ')', '*', '+', ',', ';', '=', ':', '<', '>', '"'}
  }

  /** The characters that Go's url.Parse admits in a host, with digits alone after the last colon. */
  predicate ValidHost(host: string) {
    && (forall i :: 0 <= i < |host| ==> InHost(host[i]))
    && (forall i, j :: 0 <= i < j < |host| && host[i] == ':' && ':' !in host[i + 1..] ==> '0' <= host[j] <= '9')
  }

  predicate Control(c: char) { c < ' ' || c as int == 0x7F }

  /** The path of an absolute URL without percent-encoding, as Go's url.Parse finds it; None where
      that fails, and for a text without a scheme. */
  function PathOf(raw: string): Option<string> {
    var rest := AfterScheme(UpTo(raw, '#'));
    if rest.None? || !Letter(raw[0]) || (exists c :: c in raw && Control(c)) then None
    else
      var r := UpTo(rest.value, '?');
      if "//" <= r then (if ValidHost(UpTo(r[2..], '/')) then Some(FromSlash(r[2..])) else None)
      else if "/" <= r then Some(r) else Some("")
  }

  function ObjectName(bucket: string, raw: string): Option<string> {
    var path := PathOf(raw);
    var prefix := "/" + bucket + "/";
    if path.Some? && prefix <= path.value then Some(path.value[|prefix|..]) else None
  }

  function UrlOf(publicUrl: string, bucket: string, name: string): string {
    publicUrl + ("/" + bucket + "/" + name)
  }

  /** No character that a URL would have to escape or would take for the start of a query or a
      fragment. */
  predicate Plain(s: string) {
    '#' !in s && '?' !in s && '%' !in s && forall c :: c in s ==> c as int >= 0x20 && c as int != 0x7F
  }

  // ---------------------------------------------------------------- sound addresses

  ghost predicate AsciiLetter(c: char) { 0x41 <= c as int <= 0x5A || 0x61 <= c as int <= 0x7A }

  ghost predicate AsciiDigit(c: char) { 0x30 <= c as int <= 0x39 }

  /** The characters of a scheme (section 3.1 of RFC 3986). */
  ghost predicate SchemeCharacter(c: char) {
    AsciiLetter(c) || AsciiDigit(c) || c as int in {0x2B, 0x2D, 0x2E}
  }

  /** The characters of a host (section 3.2.2 of RFC 3986: unreserved and sub-delims), the colon of a
      port, and what Go lets pass besides: beyond ASCII, a double quote and angle brackets. */
  ghost predicate HostCharacter(c: char) {
    var n := c as int;
    || AsciiLetter(c) || AsciiDigit(c) || n >= 0x80
    || n in {0x2D, 0x2E, 0x5F, 0x7E}
    || n in {0x21, 0x24, 0x26, 0x27, 0x28, 0x29, 0x2A, 0x2B, 0x2C, 0x3B, 0x3D}
    || n in {0x3A, 0x22, 0x3C, 0x3E}
  }

  ghost predicate LastColon(host: string, i: nat)
    requires i < |host|
  {
    host[i] == ':' && forall j :: i < j < |host| ==> host[j] != ':'
  }

  /** A host, and a colon and digits behind it or not. */
  ghost predicate HostAndPort(host: string) {
    && (forall i :: 0 <= i < |host| ==> HostCharacter(host[i]))
    && (forall i, j :: 0 <= i < j < |host| && LastColon(host, i) ==> AsciiDigit(host[j]))
  }

  lemma CharactersMean(c: char)
    ensures Letter(c) <==> AsciiLetter(c)
    ensures InScheme(c) <==> SchemeCharacter(c)
    ensures InHost(c) <==> HostCharacter(c)
    ensures Control(c) <==> c as int < 0x20 || c as int == 0x7F
  {
  }

  lemma HostsMean(host: string)
    ensures ValidHost(host) <==> HostAndPort(host)
  {
    forall i | 0 <= i < |host| ensures InHost(host[i]) <==> HostCharacter(host[i]) { CharactersMean(host[i]); }
    forall i | 0 <= i < |host| ensures LastColon(host, i) <==> host[i] == ':' && ':' !in host[i + 1..] {
      forall j | i < j < |host| ensures host[j] == host[i + 1..][j - i - 1] {}
    }
  }

  /** The address that clients are given, for instance http://localhost:9000: a scheme, a host and
      perhaps a path, without the slashes that `New` cuts off its end. */
  datatype Address = Address(scheme: string, host: string, path: string) {
    function Spelled(): string { scheme + ":" + ("//" + host + path) }

    ghost predicate Sound() {
      && scheme != "" && AsciiLetter(scheme[0]) && (forall c :: c in scheme ==> SchemeCharacter(c))
      && Plain(host) && '/' !in host && HostAndPort(host)
      && Plain(path) && (path == "" || (path[0] == '/' && path[|path| - 1] != '/'))
    }
  }

  lemma {:induction false} SchemeIsSkipped(scheme: string, rest: string)
    requires forall c :: c in scheme ==> InScheme(c)
    ensures AfterScheme(scheme + ":" + rest) == Some(rest)
  {
    var raw := scheme + ":" + rest;
    if scheme == "" {
      assert raw[1..] == rest;
    } else {
      assert scheme[0] in scheme;
      SchemeIsSkipped(scheme[1..], rest);
      assert raw[1..] == scheme[1..] + ":" + rest;
    }
  }

  lemma {:induction false} NothingCut(s: string, c: char)
    requires c !in s
    ensures UpTo(s, c) == s
  {
    if s != "" {
      NothingCut(s[1..], c);
      assert [s[0]] + s[1..] == s;
    }
  }

  lemma {:induction false} HostIsSkipped(host: string, path: string)
    requires '/' !in host && (path == "" || path[0] == '/')
    ensures FromSlash(host + path) == path
  {
    if host == "" {
      assert host + path == path;
    } else {
      assert host[0] in host;
      HostIsSkipped(host[1..], path);
      assert (host + path)[1..] == host[1..] + path;
    }
  }

  lemma {:induction false} HostIsCut(host: string, path: string)
    requires '/' !in host && path != "" && path[0] == '/'
    ensures UpTo(host + path, '/') == host
  {
    if host == "" {
      assert host + path == path;
    } else {
      assert host[0] in host;
      HostIsCut(host[1..], path);
      assert (host + path)[1..] == host[1..] + path && [host[0]] + host[1..] == host;
    }
  }

  lemma NotIn(c: char, a: string, b: string)
    requires c !in a && c !in b
    ensures c !in a + b
  {
  }

  lemma SchemeIsPlain(scheme: string)
    requires forall c :: c in scheme ==> InScheme(c)
    ensures '#' !in scheme
  {
    forall c | c in scheme ensures c != '#' {
      assert InScheme(c);
    }
  }

  lemma SchemeIsSound(a: Address)
    requires a.Sound()
    ensures Letter(a.scheme[0]) && (forall c :: c in a.scheme ==> InScheme(c)) && ValidHost(a.host)
  {
    CharactersMean(a.scheme[0]);
    forall c | c in a.scheme ensures InScheme(c) { CharactersMean(c); }
    HostsMean(a.host);
  }

  lemma TailIsPlain(a: Address, rest: string, tail: string)
    requires a.Sound() && Plain(rest) && tail == "//" + a.host + a.path + rest
    ensures '?' !in tail && '#' !in tail && '#' !in a.scheme + ":" + tail
    ensures forall c :: c in a.scheme + ":" + tail ==> !Control(c)
  {
    SchemeIsSound(a);
    SchemeIsPlain(a.scheme);
    forall c | c in a.scheme + ":" + tail ensures !Control(c) {
      CharactersMean(c);
      assert c in a.scheme ==> InScheme(c);
    }
    NotIn('#', a.scheme, ":");
    NotIn('#', a.scheme + ":", tail);
  }

  lemma PathFound(raw: string, tail: string, host: string, path: string)
    requires raw != "" && Letter(raw[0]) && (forall c :: c in raw ==> !Control(c))
    requires UpTo(raw, '#') == raw && AfterScheme(raw) == Some(tail) && UpTo(tail, '?') == tail
    requires tail == "//" + (host + path) && ValidHost(host)
    requires UpTo(host + path, '/') == host && FromSlash(host + path) == path
    ensures PathOf(raw) == Some(path)
  {
    assert tail[2..] == host + path;
  }

  /** A URL under a sound address has the address's path before the rest. */
  lemma PathUnder(a: Address, rest: string)
    requires a.Sound() && Plain(rest) && rest != "" && rest[0] == '/'
    ensures PathOf(a.Spelled() + rest) == Some(a.path + rest)
  {
    var tail := "//" + a.host + a.path + rest;
    var raw := a.scheme + ":" + tail;
    assert a.Spelled() + rest == raw;
    assert tail == "//" + (a.host + (a.path + rest));
    TailIsPlain(a, rest, tail);
    SchemeIsSound(a);
    NothingCut(raw, '#');
    SchemeIsSkipped(a.scheme, tail);
    NothingCut(tail, '?');
    HostIsSkipped(a.host, a.path + rest);
    HostIsCut(a.host, a.path + rest);
    PathFound(raw, tail, a.host, a.path + rest);
  }

  /** `ObjectName` takes back what `Put` makes if and only if the public address has no path. */
  lemma ObjectNameInvertsPut(a: Address, bucket: string, name: string)
    requires a.Sound() && Plain(bucket) && Plain(name)
    ensures ObjectName(bucket, UrlOf(a.Spelled(), bucket, name)) == Some(name) <==> a.path == ""
  {
    var prefix := "/" + bucket + "/";
    var rest := "/" + bucket + "/" + name;
    PathUnder(a, rest);
    if a.path == "" {
      assert a.path + rest == prefix + name;
    } else {
      assert |a.path + rest| - |prefix| > |name|;
    }
  }

  /** The addresses under which `ObjectName` takes a URL of `Put` for that of another object: their
      path begins with the bucket. */
  predicate Misdirects(a: Address, bucket: string) {
    a.path != "" && "/" + bucket + "/" <= a.path + "/"
  }

  lemma PrefixOfPath(base: string, bucket: string, path: string)
    requires base != "" && base[0] == '/' && '/' !in bucket && base + "/" <= path
    ensures "/" + bucket + "/" <= path <==> "/" + bucket + "/" <= base + "/"
  {
    var prefix, short := "/" + bucket + "/", base + "/";
    if |prefix| > |short| {
      assert prefix[|base|] == bucket[|base| - 1] && bucket[|base| - 1] in bucket;
      assert path[|base|] == short[|base|] == '/';
    }
  }

  /** Under every sound address `ObjectName` finds the object, another one, or none at all. */
  lemma WhatObjectNameFinds(a: Address, bucket: string, name: string)
    requires a.Sound() && Plain(bucket) && '/' !in bucket && Plain(name)
    ensures UrlOf(a.Spelled(), bucket, name) ==
            (a.scheme + ":" + ("//" + a.host + a.path)) + ("/" + bucket + "/" + name)
    ensures var found := ObjectName(bucket, UrlOf(a.Spelled(), bucket, name));
      && (a.path == "" ==> found == Some(name))
      && (Misdirects(a, bucket) ==> found.Some? && found.value != name)
      && (a.path != "" && !Misdirects(a, bucket) ==> found == None)
  {
    var prefix, rest := "/" + bucket + "/", "/" + bucket + "/" + name;
    PathUnder(a, rest);
    ObjectNameInvertsPut(a, bucket, name);
    var path := a.path + rest;
    assert path == a.path + "/" + (bucket + "/" + name);
    if a.path != "" {
      PrefixOfPath(a.path, bucket, path);
    }
  }

  /** Texts that are no URLs: with a control character in them, or with a host that is none. */
  lemma NoUrlIsNotFound(bucket: string, raw: string)
    requires exists c :: c in raw && (c as int < 0x20 || c as int == 0x7F)
    ensures ObjectName(bucket, raw) == None
  {
    var c :| c in raw && (c as int < 0x20 || c as int == 0x7F);
    CharactersMean(c);
  }

  lemma BadHostIsNotFound(a: Address, bucket: string, host: string, rest: string)
    requires a.Sound() && Plain(host) && '/' !in host && !HostAndPort(host)
    requires Plain(rest) && rest != "" && rest[0] == '/'
    ensures ObjectName(bucket, a.scheme + ":" + ("//" + (host + rest))) == None
  {
    var tail := "//" + (host + rest);
    var raw := a.scheme + ":" + tail;
    SchemeIsSound(a);
    SchemeIsPlain(a.scheme);
    HostsMean(host);
    NotIn('#', a.scheme, ":");
    NotIn('#', a.scheme + ":", tail);
    NothingCut(raw, '#');
    SchemeIsSkipped(a.scheme, tail);
    NothingCut(tail, '?');
    HostIsCut(host, rest);
    assert tail[2..] == host + rest;
  }

  /** Without a host the whole path counts, and without a path nothing is found. */
  lemma HostlessUrls(a: Address, bucket: string, rest: string)
    requires a.Sound() && Plain(rest) && rest != "" && !("//" <= rest)
    ensures ObjectName(bucket, a.scheme + ":" + rest) ==
            if "/" + bucket + "/" <= rest then Some(rest[|bucket| + 2..]) else None
  {
    var raw := a.scheme + ":" + rest;
    SchemeIsSound(a);
    SchemeIsPlain(a.scheme);
    NotIn('#', a.scheme, ":");
    NotIn('#', a.scheme + ":", rest);
    NothingCut(raw, '#');
    SchemeIsSkipped(a.scheme, rest);
    NothingCut(rest, '?');
    forall c | c in raw ensures !Control(c) {
      CharactersMean(c);
      assert c in a.scheme ==> InScheme(c);
    }
    assert PathOf(raw) == Some(if "/" <= rest then rest else "");
  }

  lemma NoSlashInside(other: string)
    requires '/' !in other
    ensures forall k :: 1 <= k <= |other| ==> ("/" + other + "/")[k] != '/'
  {
    forall k | 1 <= k <= |other| ensures ("/" + other + "/")[k] != '/' {
      assert other[k - 1] in other;
    }
  }

  lemma SameName(bucket: string, other: string)
    requires '/' !in bucket && '/' !in other && "/" + bucket + "/" <= "/" + other + "/"
    ensures bucket == other
  {
    var a, b := "/" + bucket + "/", "/" + other + "/";
    NoSlashInside(other);
    assert a[|bucket| + 1] == '/' && b[|bucket| + 1] == '/';
    assert a[1..|bucket| + 1] == bucket && b[1..|other| + 1] == other;
  }

  /** A URL into another bucket is none of this store. */
  lemma OtherBucketIsNotFound(a: Address, bucket: string, other: string, name: string)
    requires a.Sound() && a.path == "" && Plain(other) && Plain(name)
    requires '/' !in bucket && '/' !in other && other != bucket
    ensures ObjectName(bucket, UrlOf(a.Spelled(), other, name)) == None
  {
    var rest := "/" + other + "/" + name;
    PathUnder(a, rest);
    assert a.path + rest == rest && rest == "/" + other + "/" + name;
    PrefixOfPath("/" + other, bucket, rest);
    if "/" + bucket + "/" <= "/" + other + "/" {
      SameName(bucket, other);
    }
  }

  /** With an address whose path is the bucket, `Delete` is given another object. */
  lemma BucketInAddress(scheme: string, host: string, bucket: string, name: string)
    requires Address(scheme, host, "/" + bucket).Sound() && Plain(bucket) && Plain(name)
    ensures ObjectName(bucket, UrlOf(Address(scheme, host, "/" + bucket).Spelled(), bucket, name))
         == Some(bucket + "/" + name)
  {
    var a := Address(scheme, host, "/" + bucket);
    PathUnder(a, "/" + bucket + "/" + name);
    assert a.path + ("/" + bucket + "/" + name) == "/" + bucket + "/" + (bucket + "/" + name);
  }

  /** Different objects have different URLs. */
  lemma UrlsAreDistinct(publicUrl: string, bucket: string, o1: string, o2: string)
    ensures UrlOf(publicUrl, bucket, o1) == UrlOf(publicUrl, bucket, o2) <==> o1 == o2
  {
    var prefix := publicUrl + ("/" + bucket + "/");
    assert UrlOf(publicUrl, bucket, o1) == prefix + o1;
    assert UrlOf(publicUrl, bucket, o2) == prefix + o2;
    assert (prefix + o1)[|prefix|..] == o1 && (prefix + o2)[|prefix|..] == o2;
  }

  // ---------------------------------------------------------------- the store

  function TrimSlashes(s: string): string
  {
    if s != "" && s[|s| - 1] == '/' then TrimSlashes(s[..|s| - 1]) else s
  }

  ghost predicate AllSlashes(s: string) { forall i :: 0 <= i < |s| ==> s[i] == '/' }

  /** Trimming takes off the slashes at the end, all of them and nothing else. */
  lemma {:induction false} TrimMeans(s: string) returns (slashes: string)
    ensures s == TrimSlashes(s) + slashes && AllSlashes(slashes)
    ensures TrimSlashes(s) == "" || TrimSlashes(s)[|TrimSlashes(s)| - 1] != '/'
  {
    if s != "" && s[|s| - 1] == '/' {
      var more := TrimMeans(s[..|s| - 1]);
      slashes := more + "/";
    } else {
      slashes := "";
    }
  }

  datatype PutResult = Stored(url: string) | UnsupportedType | BadSize | Failed

  /** The outcome of an upload, as far as storage and the record are concerned. */
  datatype Outcome = Linked(url: string) | Refused | LinkFailed

  function NewName(recordId: string, unique: string, extension: string): string {
    if recordId == "" then unique + extension else recordId + "/" + unique + extension
  }

  /** The name of a new object: in a folder of its record, with the ending of its type. */
  lemma NamesMean(recordId: string, unique: string, contentType: string, extension: string)
    ensures Extension(contentType) ==
            match contentType
            case "image/jpeg" => Some(".jpg")
            case "image/png" => Some(".png")
            case "image/webp" => Some(".webp")
            case "application/pdf" => Some(".pdf")
            case _ => None
    ensures NewName("", unique, extension) == unique + extension
    ensures recordId != "" ==> NewName(recordId, unique, extension) == recordId + "/" + unique + extension
    ensures MAX_PHOTO_BYTES == 8_388_608
  {
  }

  class Store {
    const bucket: string
    const publicUrl: string
    /** The names of the objects in the bucket. */
    var objects: set<string>

    constructor (bucket: string, publicUrl: string)
      ensures this.bucket == bucket && this.publicUrl == TrimSlashes(publicUrl) && objects == {}
    {
      this.bucket := bucket;
      this.publicUrl := TrimSlashes(publicUrl);
      objects := {};
    }

    /** `unique` is the generated name, `stored` what the bucket answers. */
    method Put(recordId: string, contentType: string, size: int, unique: string, stored: bool) returns (r: PutResult)
      modifies this
      ensures Extension(contentType).None? ==> r == UnsupportedType
      ensures Extension(contentType).Some? && !(0 < size <= MAX_PHOTO_BYTES) ==> r == BadSize
      ensures r.Stored? <==> Extension(contentType).Some? && 0 < size <= MAX_PHOTO_BYTES && stored
      ensures r.Stored? ==>
        var name := NewName(recordId, unique, Extension(contentType).value);
        r.url == publicUrl + ("/" + bucket + "/" + name) && objects == old(objects) + {name}
      ensures !r.Stored? ==> objects == old(objects)
    {
      var extension := Extension(contentType);
      if extension.None? {
        return UnsupportedType;
      }
      if size <= 0 || size > MAX_PHOTO_BYTES {
        return BadSize;
      }
      var name := NewName(recordId, unique, extension.value);
      if !stored {
        return Failed;
      }
      objects := objects + {name};
      return Stored(UrlOf(publicUrl, bucket, name));
    }

    /** `removed` is what the bucket answers. */
    method Delete(url: string, removed: bool) returns (ok: bool)
      modifies this
      ensures ok <==> ObjectName(bucket, url).Some? && removed
      ensures objects == if ok then old(objects) - {ObjectName(bucket, url).value} else old(objects)
    {
      var name := ObjectName(bucket, url);
      if name.None? || !removed {
        return false;
      }
      objects := objects - {name.value};
      return true;
    }

    /** The upload handler: put the file, link it, and take it away again if it could not be linked.
        A request that could not be linked leaves the bucket as it was if and only if the address has
        no path and the deletion succeeds. */
    method Serve(ghost a: Address, recordId: string, contentType: string, size: int, unique: string, stored: bool,
                 linked: bool, removed: bool) returns (r: Outcome)
      requires a.Sound() && publicUrl == a.Spelled() && Plain(bucket) && Plain(recordId) && Plain(unique)
      requires forall x :: NewName(recordId, unique, x) !in objects
      modifies this
      ensures r.Linked? ==> exists name :: r.url == UrlOf(publicUrl, bucket, name) && objects == old(objects) + {name}
      ensures r.Refused? ==> objects == old(objects)
      ensures r.LinkFailed? ==> (objects == old(objects) <==> a.path == "" && removed)
    {
      var put := Put(recordId, contentType, size, unique, stored);
      if !put.Stored? {
        return Refused;
      }
      if linked {
        return Linked(put.url);
      }
      ghost var name := NewName(recordId, unique, Extension(contentType).value);
      ObjectNameInvertsPut(a, bucket, name);
      var ok := Delete(put.url, removed);
      return LinkFailed;
    }
  }
}
