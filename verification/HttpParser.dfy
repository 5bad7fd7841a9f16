/** requestParse of core/src/EmbeddableWebServer.h as it works on its fixed buffers, one
    method per state; each does to the buffers what HttpModel says one character does. */
module HttpParser {
  import opened Common
  import opened UrlCodec
  import opened HttpModel

  class HttpRequest {
    const verb: array<byte>
    var verbLength: nat
    const version: array<byte>
    var versionLength: nat
    const path: array<byte>
    var pathLength: nat
    const pathDecoded: array<byte>
    var pathDecodedLength: nat
    var body: array?<byte>
    var bodyLength: nat
    var bodyCapacity: nat
    const headers: array<Header>
    var headersCount: nat
    const pool: array<byte>
    var poolOffset: nat
    var poolExhausted: bool
    var tooManyHeaders: bool
    var verbTruncated: bool
    var versionTruncated: bool
    var pathTruncated: bool
    var bodyTruncated: bool
    var phase: Phase

    /** The buffers are what calloc made them, and the lengths stay inside them. */
    ghost predicate Shape()
      reads this, path, headers
    {
      && verb.Length == METHOD_SIZE && version.Length == VERSION_SIZE
      && path.Length == PATH_SIZE && pathDecoded.Length == PATH_SIZE && path != pathDecoded
      && headers.Length == MAX_HEADERS && pool.Length == POOL_SIZE
      && verbLength < METHOD_SIZE && versionLength < VERSION_SIZE && pathLength < PATH_SIZE
      && pathDecodedLength < PATH_SIZE && headersCount <= MAX_HEADERS
      && (forall k :: pathLength <= k < PATH_SIZE ==> path[k] == 0)
      && (forall k :: headersCount < k < MAX_HEADERS ==> headers[k] == BLANK)
      && (if body == null then bodyLength == 0
          else body !in {verb, version, path, pathDecoded, pool} && body.Length == bodyCapacity + 1 && bodyLength <= bodyCapacity)
    }

    /** The slot of the header being read. */
    ghost function Current(): Header
      reads this, headers
      requires headersCount <= headers.Length
    {
      if headersCount < headers.Length then headers[headersCount] else BLANK
    }

    ghost function PoolView(): Pool
      reads this`poolOffset, this`poolExhausted, pool
    {
      Pool(pool[..], poolOffset, poolExhausted)
    }

    ghost function BodyView(): Body
      reads this`body, this`bodyLength, this`bodyCapacity, body
      requires body != null ==> bodyLength <= body.Length
    {
      Body(body != null, bodyCapacity, if body == null then [] else body[..bodyLength])
    }

    ghost function View(): Request
      reads this, verb, version, path, pathDecoded, headers, pool, body
      requires Shape()
    {
      Request(phase, Line(verb[..verbLength], verbTruncated), Line(path[..pathLength], pathTruncated),
              pathDecoded[..pathDecodedLength], Line(version[..versionLength], versionTruncated),
              headers[..headersCount], Current(), PoolView(), tooManyHeaders, BodyView(), bodyTruncated)
    }

    ghost predicate Valid()
      reads this, verb, version, path, pathDecoded, headers, pool, body
    {
      Shape() && Sane(View())
    }

    /** A request as calloc makes it. */
    constructor ()
      ensures Valid() && View() == Fresh()
      ensures fresh(verb) && fresh(version) && fresh(path) && fresh(pathDecoded) && fresh(headers) && fresh(pool)
    {
      verb := new byte[METHOD_SIZE](_ => 0);
      version := new byte[VERSION_SIZE](_ => 0);
      path := new byte[PATH_SIZE](_ => 0);
      pathDecoded := new byte[PATH_SIZE](_ => 0);
      headers := new Header[MAX_HEADERS](_ => BLANK);
      pool := new byte[POOL_SIZE](_ => 0);
      verbLength, versionLength, pathLength, pathDecodedLength := 0, 0, 0, 0;
      body, bodyLength, bodyCapacity := null, 0, 0;
      headersCount, poolOffset := 0, 0;
      poolExhausted, tooManyHeaders, verbTruncated, versionTruncated, pathTruncated, bodyTruncated :=
        false, false, false, false, false, false;
      phase := Method;
      new;
      FreshIsSane();
      assert pool[..] == Fresh().pool.bytes;
    }

    method MethodChar(c: byte, env: Env)
      requires Valid() && phase == Method
      modifies this`phase, this`verbLength, this`verbTruncated, verb
      ensures Valid() && View() == LineStep(old(View()), c, env)
    {
      hide Sane;
      ghost var was := View();
      if c == SPACE {
        phase := Path;
      } else if verbLength < verb.Length - 1 {
        verb[verbLength] := c;
        verbLength := verbLength + 1;
        assert verb[..verbLength] == was.verb.kept + [c];
      } else {
        verbTruncated := true;
      }
      assert View() == LineStep(was, c, env);
    }

    method VersionChar(c: byte, env: Env)
      requires Valid() && phase == Version
      modifies this`phase, this`versionLength, this`versionTruncated, version
      ensures Valid() && View() == LineStep(old(View()), c, env)
    {
      hide Sane;
      ghost var was := View();
      if c == CR {
        phase := AfterCR;
      } else if versionLength < version.Length - 1 {
        version[versionLength] := c;
        versionLength := versionLength + 1;
        assert version[..versionLength] == was.version.kept + [c];
      } else {
        versionTruncated := true;
      }
      assert View() == LineStep(was, c, env);
    }

    /** The path as the C string it is: up to the first null, of which there is one. */
    method PathString() returns (s: seq<byte>)
      requires Shape()
      ensures s == CString(path[..pathLength])
    {
      var n := 0;
      while path[n] != 0
        invariant n <= pathLength && 0 !in path[..n]
        decreases pathLength - n
      {
        n := n + 1;
      }
      s := path[..n];
      if n < pathLength {
        assert path[..pathLength] == path[..n] + path[n..pathLength];
        CutAfter(path[..n], path[n..pathLength], 0);
      } else {
        CutNothing(path[..n], 0);
      }
    }

    /** The path ends here: it is decoded, which always fits. */
    method PathEndsHere(env: Env)
      requires Valid() && phase == Path
      modifies this`phase, this`pathDecodedLength, pathDecoded
      ensures Valid() && View() == PathEnds(old(View()), env)
    {
      hide Sane, Unescape, CString;
      var encoded := PathString();
      PathFits(path[..pathLength], env.hex);
      var success, length := URLDecode(encoded, pathDecoded, pathDecoded.Length, WholeURL, env.hex);
      assert success;
      pathDecodedLength := length;
      phase := Version;
      assert View() == PathEnds(old(View()), env);
    }

    method PathChar(c: byte, env: Env)
      requires Valid() && phase == Path
      modifies this`phase, this`pathLength, this`pathTruncated, this`pathDecodedLength, path, pathDecoded
      ensures Valid() && View() == LineStep(old(View()), c, env)
    {
      hide Sane, PathEnds;
      ghost var was := View();
      if c == SPACE {
        PathEndsHere(env);
      } else {
        if pathLength < path.Length - 1 {
          path[pathLength] := c;
          pathLength := pathLength + 1;
          assert path[..pathLength] == was.path.kept + [c];
        } else {
          pathTruncated := true;
        }
        assert View() == LineStep(was, c, env);
      }
    }

    /** poolStringStartNewString. */
    method PoolStartNewString() returns (s: PoolString)
      requires PoolOk(PoolView())
      modifies this`poolOffset, this`poolExhausted
      ensures (s, PoolView()) == StartString(old(PoolView()))
    {
      if poolOffset == 0 {
        return At(0, 0);
      }
      if poolOffset >= POOL_LIMIT {
        poolExhausted := true;
        return Unset;
      }
      poolOffset := poolOffset + 1;
      s := At(poolOffset, 0);
    }

    /** poolStringAppendChar. */
    method PoolAppendChar(s: PoolString, c: byte) returns (s': PoolString)
      requires PoolOk(PoolView()) && StringOk(s, PoolView()) && (s.Unset? ==> poolOffset >= POOL_LIMIT)
      modifies this`poolOffset, this`poolExhausted, pool
      ensures (s', PoolView()) == AppendChar(s, old(PoolView()), c)
    {
      if poolOffset >= POOL_LIMIT {
        poolExhausted := true;
        return s;
      }
      pool[s.start + s.length] := c;
      poolOffset := poolOffset + 1;
      s' := At(s.start, s.length + 1);
    }

    /** A character for a name or value, started with its first. */
    method PoolPut(s: PoolString, c: byte) returns (s': PoolString)
      requires PoolOk(PoolView()) && StringOk(s, PoolView())
      modifies this`poolOffset, this`poolExhausted, pool
      ensures (s', PoolView()) == Put(s, old(PoolView()), c)
    {
      hide StartString, AppendChar, PoolOk, StringOk;
      s' := s;
      if s'.Unset? {
        s' := PoolStartNewString();
      }
      s' := PoolAppendChar(s', c);
    }

    /** Puts a header in the current slot. */
    method SetCurrent(h: Header)
      requires Shape() && headersCount < MAX_HEADERS
      modifies headers
      ensures Shape() && headers[..headersCount] == old(headers[..headersCount]) && Current() == h
    {
      headers[headersCount] := h;
    }

    method HeaderNameChar(c: byte)
      requires Valid() && phase == HeaderName
      modifies this`phase, this`poolOffset, this`poolExhausted, pool, headers
      ensures Valid() && View() == NameStep(old(View()), c)
    {
      assert headersCount < MAX_HEADERS && PoolOk(PoolView()) && StringOk(Current().name, PoolView());
      hide Sane, Put, PoolOk, StringOk;
      if c == COLON {
        phase := HeaderValue;
      } else if c == CR {
        phase := AfterCR;
      } else {
        var name := PoolPut(headers[headersCount].name, c);
        SetCurrent(headers[headersCount].(name := name));
      }
      assert View() == NameStep(old(View()), c);
    }

    method HeaderValueChar(c: byte)
      requires Valid() && phase == HeaderValue
      modifies this`phase, this`headersCount, this`poolOffset, this`poolExhausted, pool, headers
      ensures Valid() && View() == ValueStep(old(View()), c)
    {
      assert headersCount < MAX_HEADERS && PoolOk(PoolView()) && StringOk(Current().value, PoolView());
      hide Sane, Put, PoolOk, StringOk;
      var h := headers[headersCount];
      if c == SPACE && Length(h.value) == 0 {
      } else if c == CR {
        if Length(h.value) > 0 && Length(h.name) > 0 {
          AcceptHeader();
        }
        phase := AfterCR;
      } else {
        var value := PoolPut(h.value, c);
        SetCurrent(h.(value := value));
      }
      assert View() == ValueStep(old(View()), c);
    }

    /** The current header is filled out: the next slot, still blank, becomes current. */
    method AcceptHeader()
      requires Shape() && headersCount < MAX_HEADERS
      modifies this`headersCount
      ensures Shape() && headersCount == old(headersCount) + 1
      ensures headers[..headersCount] == old(headers[..headersCount]) + [old(Current())] && Current() == BLANK
    {
      headersCount := headersCount + 1;
    }

    /** stateHeaderNameIfSpaceLeft, with its result stored. */
    method StateHeaderNameIfSpaceLeft()
      requires Valid() && phase != InBody && phase != Done
      modifies this`phase, this`tooManyHeaders
      ensures Valid() && View() == HeaderOrEat(old(View()))
    {
      assert headersCount <= MAX_HEADERS;
      hide Sane;
      if headersCount < MAX_HEADERS {
        phase := if !poolExhausted then HeaderName else EatHeaders;
      } else {
        tooManyHeaders := true;
        phase := EatHeaders;
      }
      assert View() == HeaderOrEat(old(View()));
    }

    /** A C string of the pool, which ends in it: its last byte is always null. */
    method PoolCString(start: nat) returns (s: seq<byte>)
      requires PoolOk(PoolView()) && start <= poolOffset
      ensures s == CString(pool[..][start..])
    {
      var n := start;
      while pool[n] != 0
        invariant start <= n <= poolOffset && 0 !in pool[start..n]
        decreases poolOffset - n
      {
        n := n + 1;
      }
      s := pool[start..n];
      assert pool[..][start..] == pool[start..n] + pool[n..];
      CutAfter(pool[start..n], pool[n..], 0);
    }

    /** headerInRequest. */
    method HeaderInRequest(name: seq<byte>) returns (h: Option<Header>)
      requires Valid()
      ensures h == FindHeader(View(), 0, name)
    {
      hide Sane, CString, PoolOk, StringOk;
      for i := 0 to headersCount
        invariant FindHeader(View(), 0, name) == FindHeader(View(), i, name)
      {
        AcceptedIsSet(View(), i);
        FindNext(View(), i, name);
        var found := PoolCString(headers[i].name.start);
        if LowerAll(found) == name {
          return Some(headers[i]);
        }
      }
      FindNext(View(), headersCount, name);
      h := None;
    }

    method SetPhase(p: Phase)
      requires Shape()
      modifies this`phase
      ensures Shape() && View() == old(View()).(phase := p)
    {
      phase := p;
    }

    /** Room for the body announced, one byte more for its null. */
    method StartBody(length: nat)
      requires Shape() && body == null
      modifies this`phase, this`body, this`bodyLength, this`bodyCapacity
      ensures Shape() && (body == null || fresh(body))
      ensures View() == old(View()).(phase := InBody, body := Body(length > 0, length, []))
    {
      if length > 0 {
        body := new byte[length + 1](_ => 0);
      }
      bodyCapacity := length;
      bodyLength := 0;
      phase := InBody;
    }

    /** The number a found header gives, read from its text in the pool. */
    method HeaderNumber(header: Header, env: Env) returns (n: Option<int>)
      requires Valid() && header in View().accepted
      ensures header.value.At? && header.value.start <= |pool[..]|
      ensures n == env.toLong(CString(pool[..][header.value.start..]))
    {
      FoundIsSet(View(), header);
      hide Shape, Sane, CString;
      var text := PoolCString(header.value.start);
      n := env.toLong(text);
    }

    /** The empty line after the headers: the request is done unless it announces a body. */
    method EndHeaders(env: Env)
      requires Valid() && phase == AfterCRLFCR
      modifies this`phase, this`body, this`bodyLength, this`bodyCapacity
      ensures Valid() && View() == EndOfHeaders(old(View()), env)
      ensures body == old(body) || fresh(body)
    {
      assert body == null;
      hide Shape, Sane, FindHeader, CString;
      var header := HeaderInRequest(CONTENT_LENGTH);
      if header.Some? {
        var contentLength := HeaderNumber(header.value, env);
        if contentLength.Some? {
          StartBody(BodyLength(contentLength.value));
        } else {
          SetPhase(Done);
        }
      } else {
        SetPhase(Done);
      }
      assert View() == EndOfHeaders(old(View()), env);
    }

    method BodyChar(c: byte)
      requires Valid() && phase == InBody
      modifies this`phase, this`bodyLength, body
      ensures Valid() && View() == BodyStep(old(View()), c)
    {
      ghost var was := View();
      assert body == null ==> bodyCapacity == 0;
      hide Sane;
      if bodyLength < bodyCapacity {
        body[bodyLength] := c;
        bodyLength := bodyLength + 1;
        assert body[..bodyLength] == was.body.bytes + [c];
      }
      if bodyLength == bodyCapacity {
        phase := Done;
      }
      assert View() == BodyStep(was, c);
    }

    method LineChar(c: byte, env: Env)
      requires Valid() && (phase == Method || phase == Path || phase == Version)
      modifies this`phase, this`verbLength, this`verbTruncated, verb
      modifies this`versionLength, this`versionTruncated, version
      modifies this`pathLength, this`pathTruncated, this`pathDecodedLength, path, pathDecoded
      ensures Valid() && View() == LineStep(old(View()), c, env)
    {
      hide Shape, Sane, LineStep;
      if phase == Method {
        MethodChar(c, env);
      } else if phase == Path {
        PathChar(c, env);
      } else {
        VersionChar(c, env);
      }
    }

    /** After a line end. `replay` says that the character opens a header and is to be looked
        at again. */
    method EndChar(c: byte, env: Env) returns (replay: bool)
      requires Valid() && (phase == AfterCR || phase == AfterCRLF || phase == AfterCRLFCR)
      modifies this`phase, this`tooManyHeaders, this`body, this`bodyLength, this`bodyCapacity
      ensures Valid() && (body == old(body) || fresh(body))
      ensures replay ==> old(phase) == AfterCRLF && phase == HeaderName && NameStep(View(), c) == EndStep(old(View()), c, env)
      ensures !replay ==> View() == EndStep(old(View()), c, env)
    {
      hide Shape, Sane, NameStep, EndOfHeaders, HeaderOrEat;
      replay := false;
      if phase == AfterCR {
        if c == LF {
          SetPhase(AfterCRLF);
        } else {
          StateHeaderNameIfSpaceLeft();
        }
      } else if phase == AfterCRLF {
        if c == CR {
          SetPhase(AfterCRLFCR);
        } else {
          StateHeaderNameIfSpaceLeft();
          replay := phase == HeaderName;
        }
      } else if c == LF {
        EndHeaders(env);
      } else {
        StateHeaderNameIfSpaceLeft();
      }
      if !replay {
        assert View() == EndStep(old(View()), c, env);
      }
    }

    /** More after the end, or a header there is no room for. */
    method OtherChar(c: byte, env: Env)
      requires Valid() && (phase == EatHeaders || phase == Done)
      modifies this`phase, this`bodyTruncated
      ensures Valid() && View() == Step(old(View()), c, env)
    {
      hide Sane;
      if phase == EatHeaders {
        if c == CR {
          phase := AfterCR;
        }
      } else if body != null {
        bodyTruncated := true;
      }
      assert View() == Step(old(View()), c, env);
    }

    /** One round of requestParse's switch. */
    method Switch(c: byte, env: Env) returns (replay: bool)
      requires Valid()
      modifies this, verb, version, path, pathDecoded, headers, pool, body
      ensures Valid() && (body == old(body) || fresh(body))
      ensures replay ==> old(phase) == AfterCRLF && phase == HeaderName && Step(View(), c, env) == Step(old(View()), c, env)
      ensures !replay ==> View() == Step(old(View()), c, env)
    {
      hide Shape, Sane, LineStep, NameStep, ValueStep, BodyStep, EndStep;
      replay := false;
      if phase == Method || phase == Path || phase == Version {
        LineChar(c, env);
      } else if phase == HeaderName {
        HeaderNameChar(c);
      } else if phase == HeaderValue {
        HeaderValueChar(c);
      } else if phase == AfterCR || phase == AfterCRLF || phase == AfterCRLFCR {
        replay := EndChar(c, env);
      } else if phase == InBody {
        BodyChar(c);
      } else {
        OtherChar(c, env);
      }
    }

    /** requestParse: the next fragment of the request. */
    method RequestParse(fragment: seq<byte>, env: Env)
      requires Valid()
      modifies this, verb, version, path, pathDecoded, headers, pool, body
      ensures Valid() && (body == old(body) || fresh(body))
      ensures View() == Feed(old(View()), fragment, env)
    {
      hide Shape, Sane, Step, Feed;
      var i := 0;
      assert fragment[0..] == fragment;
      while i < |fragment|
        invariant 0 <= i <= |fragment| && Valid() && (body == old(body) || fresh(body))
        invariant Feed(View(), fragment[i..], env) == Feed(old(View()), fragment, env)
        decreases |fragment| - i, if phase == AfterCRLF then 1 else 0
      {
        var c := fragment[i];
        FeedFirst(View(), fragment[i..], env);
        assert fragment[i..][1..] == fragment[i + 1..];
        ghost var was := View();
        var replay := Switch(c, env);
        if replay {
          FeedFirst(View(), fragment[i..], env);
          i := i - 1;
        }
        i := i + 1;
      }
      assert fragment[i..] == [];
      FeedNothing(View(), env);
    }
  }

  lemma FoundIsSet(r: Request, h: Header)
    requires Sane(r) && h in r.accepted
    ensures h.value.At? && h.value.start <= r.pool.offset
  {
  }

  lemma AcceptedIsSet(r: Request, i: nat)
    requires Sane(r) && i < |r.accepted|
    ensures PoolOk(r.pool) && HeaderOk(r.accepted[i], r.pool)
    ensures r.accepted[i].name.At? && r.accepted[i].name.start <= r.pool.offset
    ensures r.accepted[i].value.At? && r.accepted[i].value.start <= r.pool.offset
  {
  }

  lemma FindNext(r: Request, i: nat, name: seq<byte>)
    requires Sane(r) && i <= |r.accepted|
    ensures i == |r.accepted| ==> FindHeader(r, i, name) == None
    ensures i < |r.accepted| ==> PoolOk(r.pool) && StringOk(r.accepted[i].name, r.pool)
    ensures i < |r.accepted| ==>
      (FindHeader(r, i, name) ==
       if Named(r.accepted[i].name, r.pool, name) then Some(r.accepted[i]) else FindHeader(r, i + 1, name))
  {
    hide Named;
  }
}
