/**
 * The two pure helpers of Project/ProxyLab/proxy.c: `parse_request_url`,
 * which splits an absolute `http_URL` (section 3.2.2 of RFC 1945:
 * `http://host[:port][abs_path]`) into hostname, port and uri, and
 * `check_object_size`, which appends a chunk of a server reply to the
 * object buffer unless the object would outgrow `MAX_OBJECT_SIZE`.
 */
module ProxyUrl {
  import opened Outcomes
  import opened CStr
  import opened ProxyCache

  /** The hostname, port and uri out-parameters of `parse_request_url`. */
  datatype Target = Target(hostname: string, port: int, uri: string)

  const DEFAULT_PORT: int := 80

  /**
   * `parse_request_url`. A url without "http" leaves the out-parameters
   * as they were (`prior`). Otherwise the hostname starts two characters
   * past the first '/', which the code takes for "//" without looking;
   * a url with no '/' at all, or with its first '/' as the last
   * character, sends that pointer past the string (`Fault`). The
   * hostname runs to the next '/', and the uri is '/' followed by what
   * comes after it ("/" alone without one). A ':' in the hostname cuts
   * it there and `atoi` of the rest is the port; otherwise the port is 80.
   */
  function ParseRequestUrl(url: string, prior: Target): (r: Outcome<Target>)
    ensures !Contains(url, "http") ==> r == Done(prior)
    ensures r.Fault? <==>
      Contains(url, "http") && forall j :: 0 <= j < |url| - 1 ==> url[j] != '/'
    ensures r.Done? && Contains(url, "http") ==>
      && (forall j :: 0 <= j < |r.value.hostname| ==> r.value.hostname[j] != '/' && r.value.hostname[j] != ':')
      && r.value.uri != [] && r.value.uri[0] == '/'
  {
    if !Contains(url, "http") then Done(prior)
    else
      match StrChr(url, 0, '/')
      case None => Fault
      case Some(f) =>
        if f + 2 > |url| then Fault
        else
          var (host, uri) := HostAndUri(url, f + 2);
          Done(SplitPort(host, uri))
  }

  /** The hostname runs from `start` to the next '/'; the uri is '/' and what follows that '/'. */
  function HostAndUri(url: string, start: nat): (p: (string, string))
    requires start <= |url|
    ensures forall j :: 0 <= j < |p.0| ==> p.0[j] != '/'
    ensures p.1 != [] && p.1[0] == '/'
  {
    match StrChr(url, start, '/')
    case None =>
      assert forall j :: 0 <= j < |url| - start ==> url[start..][j] == url[start + j];
      (url[start..], "/")
    case Some(q) =>
      assert forall j :: 0 <= j < q - start ==> url[start..q][j] == url[start + j];
      (url[start..q], "/" + url[q + 1..])
  }

  /** The port step: a ':' cuts the hostname and `atoi` reads the port after it; no ':' means port 80. */
  function SplitPort(host: string, uri: string): (t: Target)
    ensures (forall j :: 0 <= j < |host| ==> host[j] != '/') ==>
      forall j :: 0 <= j < |t.hostname| ==> t.hostname[j] != '/' && t.hostname[j] != ':'
    ensures t.uri == uri
  {
    match StrChr(host, 0, ':')
    case None => Target(host, DEFAULT_PORT, uri)
    case Some(c) => Target(host[..c], Atoi(host[c + 1..]), uri)
  }

  /** A host name the url grammar delimits: no '/' and no ':'. */
  predicate HostName(host: string)
  {
    forall j :: 0 <= j < |host| ==> host[j] != '/' && host[j] != ':'
  }

  lemma HasHttp(url: string)
    requires |url| >= 4 && url[..4] == "http"
    ensures Contains(url, "http")
  {
    assert OccursAt(url, "http", 0);
  }

  /** `http://host:port/path` comes apart into its three pieces. */
  lemma ParseWithPort(host: string, port: nat, path: string, prior: Target)
    requires HostName(host)
    ensures ParseRequestUrl("http://" + host + ":" + Decimal(port) + "/" + path, prior)
      == Done(Target(host, port, "/" + path))
  {
    var hp := host + ":" + Decimal(port);
    assert "http://" + host + ":" + Decimal(port) + "/" + path == "http://" + hp + "/" + path;
    ParseSlashFree(hp, path, prior);
    assert hp[|host|] == ':' && forall j :: 0 <= j < |host| ==> hp[j] != ':';
    assert StrChr(hp, 0, ':') == Some(|host|);
    assert hp[..|host|] == host && hp[|host| + 1..] == Decimal(port) + [];
    AtoiDecimal(port, []);
  }

  /** `http://host/path` gets the default port. */
  lemma ParseDefaultPort(host: string, path: string, prior: Target)
    requires HostName(host)
    ensures ParseRequestUrl("http://" + host + "/" + path, prior) == Done(Target(host, DEFAULT_PORT, "/" + path))
  {
    ParseSlashFree(host, path, prior);
  }

  /** With no '/' between "http://" and the path, the text in between is what the port step sees. */
  lemma ParseSlashFree(hp: string, path: string, prior: Target)
    requires forall j :: 0 <= j < |hp| ==> hp[j] != '/'
    ensures ParseRequestUrl("http://" + hp + "/" + path, prior) == Done(SplitPort(hp, "/" + path))
  {
    var url := "http://" + hp + "/" + path;
    HasHttp(url);
    assert url[5] == '/' && forall j :: 0 <= j < 5 ==> url[j] != '/';
    assert StrChr(url, 0, '/') == Some(5);
    assert url[7 + |hp|] == '/' && forall j :: 7 <= j < 7 + |hp| ==> url[j] != '/';
    assert StrChr(url, 7, '/') == Some(7 + |hp|);
    assert url[7..7 + |hp|] == hp && url[7 + |hp| + 1..] == path;
  }

  /** `http://host` with no path asks for "/" on the default port. */
  lemma ParseNoPath(host: string, prior: Target)
    requires HostName(host)
    ensures ParseRequestUrl("http://" + host, prior) == Done(Target(host, DEFAULT_PORT, "/"))
  {
    var url := "http://" + host;
    HasHttp(url);
    assert url[5] == '/' && forall j :: 0 <= j < 5 ==> url[j] != '/';
    assert StrChr(url, 0, '/') == Some(5);
    assert forall j :: 7 <= j < |url| ==> url[j] != '/';
    assert url[7..] == host;
  }

  /**
   * `check_object_size`: a chunk that would take the object past
   * `MAX_OBJECT_SIZE` is refused (1) and nothing changes; otherwise its
   * `readNum` bytes are copied in at `objectSize`, everything else in the
   * buffer stays, the size advances by `readNum`, and the answer is 0.
   */
  method CheckObjectSize(objectSize: nat, readNum: nat, objectData: seq<Byte>, buf: seq<Byte>)
    returns (isOver: int, size: nat, data: seq<Byte>)
    requires |objectData| == MAX_OBJECT_SIZE && readNum <= |buf|
    ensures isOver == 0 || isOver == 1
    ensures isOver == 1 <==> objectSize + readNum > MAX_OBJECT_SIZE
    ensures isOver == 1 ==> size == objectSize && data == objectData
    ensures isOver == 0 ==>
      && size == objectSize + readNum <= MAX_OBJECT_SIZE && |data| == MAX_OBJECT_SIZE
      && data[..objectSize] == objectData[..objectSize]
      && data[objectSize..size] == buf[..readNum]
      && data[size..] == objectData[size..]
  {
    if objectSize + readNum > MAX_OBJECT_SIZE {
      return 1, objectSize, objectData;
    }
    data, size := objectData, objectSize;
    var i: nat := 0;
    while i < readNum
      invariant i <= readNum && size == objectSize + i && |data| == MAX_OBJECT_SIZE
      invariant forall k :: 0 <= k < i ==> data[objectSize + k] == buf[k]
      invariant forall k :: 0 <= k < |data| && !(objectSize <= k < size) ==> data[k] == objectData[k]
    {
      data := data[size := buf[i]];
      size := size + 1;
      i := i + 1;
    }
    assert data[objectSize..size] == buf[..readNum] by {
      assert forall k :: 0 <= k < readNum ==> data[objectSize..size][k] == data[objectSize + k];
    }
    isOver := 0;
  }
}
