/** The incremental request parser of core/src/EmbeddableWebServer.h: what one character does
    to a request, and what holds of every request it can reach. */
module HttpModel {
  import opened Common
  import opened UrlCodec

  const CR: byte := 13
  const LF: byte := 10
  const COLON: byte := 58

  const METHOD_SIZE := 64
  const VERSION_SIZE := 16
  const PATH_SIZE := 1024
  const MAX_HEADERS := 64
  const POOL_SIZE := 8192
  /** Where the pool counts as full: one character and the last null must still fit. */
  const POOL_LIMIT := POOL_SIZE - 1 - 1
  const MAX_BODY := 128 * 1024 * 1024

  /** Calls into the C library: scanning two hexadecimal digits and a decimal number. */
  datatype Env = Env(hex: Hex, toLong: seq<byte> -> Option<int>)

  // ---------- fixed buffers ----------

  datatype Line = Line(kept: seq<byte>, truncated: bool)

  /** A character for a buffer of the given size, whose last place is the null's. */
  function Keep(line: Line, c: byte, size: nat): (r: Line)
    requires |line.kept| < size
    ensures |r.kept| < size
  {
    if |line.kept| < size - 1 then line.(kept := line.kept + [c]) else line.(truncated := true)
  }

  /** A null-terminated string, from where it starts. */
  function CString(s: seq<byte>): seq<byte> {
    CutAt(s, 0)
  }

  // ---------- the string pool ----------

  datatype Pool = Pool(bytes: seq<byte>, offset: nat, exhausted: bool)

  /** A string of the pool: where it starts and how long it is, or a null pointer. */
  datatype PoolString = Unset | At(start: nat, length: nat)

  function Length(s: PoolString): nat {
    if s.At? then s.length else 0
  }

  predicate PoolOk(pool: Pool) {
    |pool.bytes| == POOL_SIZE && pool.offset <= POOL_LIMIT
    && forall k :: pool.offset <= k < POOL_SIZE ==> pool.bytes[k] == 0
  }

  /** A string lies in the used part of the pool. */
  predicate StringOk(s: PoolString, pool: Pool) {
    s.At? ==> s.start + s.length <= pool.offset
  }

  function Text(s: PoolString, pool: Pool): seq<byte>
    requires StringOk(s, pool) && PoolOk(pool)
  {
    if s.At? then pool.bytes[s.start..s.start + s.length] else []
  }

  function StartString(pool: Pool): (r: (PoolString, Pool))
    requires PoolOk(pool)
    ensures PoolOk(r.1) && StringOk(r.0, r.1) && r.1.offset >= pool.offset && Length(r.0) == 0
    ensures r.0.Unset? ==> r.1.offset >= POOL_LIMIT
  {
    if pool.offset == 0 then (At(0, 0), pool)
    else if pool.offset >= POOL_LIMIT then (Unset, pool.(exhausted := true))
    else (At(pool.offset + 1, 0), pool.(offset := pool.offset + 1))
  }

  /** No null pointer is written through: a string without memory finds the pool full. */
  function AppendChar(s: PoolString, pool: Pool, c: byte): (r: (PoolString, Pool))
    requires PoolOk(pool) && StringOk(s, pool) && (s.Unset? ==> pool.offset >= POOL_LIMIT)
    ensures PoolOk(r.1) && StringOk(r.0, r.1) && r.1.offset >= pool.offset
    ensures Length(r.0) >= Length(s)
  {
    if pool.offset >= POOL_LIMIT then (s, pool.(exhausted := true))
    else
      (At(s.start, s.length + 1), pool.(bytes := pool.bytes[s.start + s.length := c], offset := pool.offset + 1))
  }

  /** A character for a name or a value, which gets its place in the pool with its first. */
  function Put(s: PoolString, pool: Pool, c: byte): (r: (PoolString, Pool))
    requires PoolOk(pool) && StringOk(s, pool)
    ensures PoolOk(r.1) && StringOk(r.0, r.1) && r.1.offset >= pool.offset
  {
    var started := if s.Unset? then StartString(pool) else (s, pool);
    AppendChar(started.0, started.1, c)
  }

  // ---------- the request ----------

  datatype Phase =
    | Method | Path | Version | HeaderName | HeaderValue
    | AfterCR | AfterCRLF | AfterCRLFCR | InBody | EatHeaders | Done

  datatype Header = Header(name: PoolString, value: PoolString)

  const BLANK := Header(Unset, Unset)

  /** The request's body: allocated only when a length above 0 is announced. */
  datatype Body = Body(held: bool, capacity: nat, bytes: seq<byte>)

  /** `current` is the slot of the header being read, the one after those accepted. */
  datatype Request = Request(
    phase: Phase, verb: Line, path: Line, decoded: seq<byte>, version: Line,
    accepted: seq<Header>, current: Header, pool: Pool, tooMany: bool,
    body: Body, bodyTruncated: bool)

  const NOTHING := Line([], false)

  function Fresh(): Request {
    Request(Method, NOTHING, NOTHING, [], NOTHING, [], BLANK,
            Pool(seq(POOL_SIZE, _ => 0), 0, false), false, Body(false, 0, []), false)
  }

  predicate HeaderOk(h: Header, pool: Pool) {
    StringOk(h.name, pool) && StringOk(h.value, pool)
  }

  /** What every reachable request satisfies: no buffer is overrun, header states have a
      free slot, accepted headers have a name and a value. */
  predicate Sane(r: Request) {
    && |r.verb.kept| < METHOD_SIZE && |r.path.kept| < PATH_SIZE && |r.version.kept| < VERSION_SIZE
    && |r.decoded| < PATH_SIZE
    && PoolOk(r.pool) && HeaderOk(r.current, r.pool)
    && |r.accepted| <= MAX_HEADERS
    && (forall i :: 0 <= i < |r.accepted| ==>
          HeaderOk(r.accepted[i], r.pool) && Length(r.accepted[i].name) > 0 && Length(r.accepted[i].value) > 0)
    && (r.phase == HeaderName || r.phase == HeaderValue ==> |r.accepted| < MAX_HEADERS)
    && (r.phase != InBody && r.phase != Done ==> r.body == Body(false, 0, []))
    && |r.body.bytes| <= r.body.capacity <= MAX_BODY && (r.body.held <==> r.body.capacity > 0)
  }

  // ---------- one character ----------

  function Lower(c: byte): byte {
    if 65 <= c <= 90 then c + 32 else c
  }

  function LowerAll(s: seq<byte>): (r: seq<byte>)
    ensures |r| == |s| && forall k :: 0 <= k < |s| ==> r[k] == Lower(s[k])
  {
    seq(|s|, k requires 0 <= k < |s| => Lower(s[k]))
  }

  /** "Content-Length", in lower case. */
  const CONTENT_LENGTH: seq<byte> := [99, 111, 110, 116, 101, 110, 116, 45, 108, 101, 110, 103, 116, 104]

  /** Does the string, read up to its null, have the given lower-case name? */
  predicate Named(s: PoolString, pool: Pool, name: seq<byte>)
    requires PoolOk(pool) && StringOk(s, pool)
  {
    s.At? && LowerAll(CString(pool.bytes[s.start..])) == name
  }

  /** headerInRequest: the first of the first n accepted headers from i on with the name. */
  function FindHeader(r: Request, i: nat, name: seq<byte>): (h: Option<Header>)
    requires Sane(r) && i <= |r.accepted|
    ensures h.Some? ==> h.value in r.accepted
    decreases |r.accepted| - i
  {
    if i == |r.accepted| then None
    else if Named(r.accepted[i].name, r.pool, name) then Some(r.accepted[i])
    else FindHeader(r, i + 1, name)
  }

  function HeaderOrEat(r: Request): (r': Request)
    requires Sane(r) && r.phase != InBody && r.phase != Done
    ensures Sane(r')
  {
    if |r.accepted| >= MAX_HEADERS then r.(phase := EatHeaders, tooMany := true)
    else if r.pool.exhausted then r.(phase := EatHeaders)
    else r.(phase := HeaderName)
  }

  function NameStep(r: Request, c: byte): (r': Request)
    requires Sane(r) && r.phase == HeaderName
    ensures Sane(r')
  {
    if c == COLON then r.(phase := HeaderValue)
    else if c == CR then r.(phase := AfterCR)
    else
      var put := Put(r.current.name, r.pool, c);
      r.(current := r.current.(name := put.0), pool := put.1)
  }

  function ValueStep(r: Request, c: byte): (r': Request)
    requires Sane(r) && r.phase == HeaderValue
    ensures Sane(r')
  {
    if c == SPACE && Length(r.current.value) == 0 then r
    else if c == CR then
      if Length(r.current.name) > 0 && Length(r.current.value) > 0
      then r.(accepted := r.accepted + [r.current], current := BLANK, phase := AfterCR)
      else r.(phase := AfterCR)
    else
      var put := Put(r.current.value, r.pool, c);
      r.(current := r.current.(value := put.0), pool := put.1)
  }

  /** The length a Content-Length header announces, cut to what the server takes. */
  function BodyLength(n: int): nat {
    if n > MAX_BODY then MAX_BODY else if n < 0 then 0 else n
  }

  function EndOfHeaders(r: Request, env: Env): (r': Request)
    requires Sane(r)
    ensures Sane(r')
  {
    var h := FindHeader(r, 0, CONTENT_LENGTH);
    if h.None? then r.(phase := Done)
    else
      var n := env.toLong(CString(r.pool.bytes[h.value.value.start..]));
      if n.None? then r.(phase := Done)
      else
        var length := BodyLength(n.value);
        r.(body := Body(length > 0, length, []), phase := InBody)
  }

  function BodyStep(r: Request, c: byte): (r': Request)
    requires Sane(r) && r.phase == InBody
    ensures Sane(r')
  {
    var body := if |r.body.bytes| < r.body.capacity then r.body.(bytes := r.body.bytes + [c]) else r.body;
    r.(body := body, phase := if |body.bytes| == body.capacity then Done else InBody)
  }

  function PathEnds(r: Request, env: Env): (r': Request)
    requires Sane(r) && r.phase == Path
    ensures Sane(r')
  {
    PathFits(r.path.kept, env.hex);
    r.(decoded := Unescape(CString(r.path.kept), env.hex), phase := Version)
  }

  lemma PathFits(path: seq<byte>, hex: Hex)
    ensures |Unescape(CString(path), hex)| <= |CString(path)| <= |path|
  {
    UnescapeShortens(CString(path), hex);
    CutShortens(path, 0);
  }

  lemma {:induction false} CutShortens(s: seq<byte>, end: byte)
    ensures |CutAt(s, end)| <= |s|
  {
    if |s| > 0 {
      CutShortens(s[1..], end);
    }
  }

  function LineStep(r: Request, c: byte, env: Env): (r': Request)
    requires Sane(r) && (r.phase == Method || r.phase == Path || r.phase == Version)
    ensures Sane(r')
  {
    if r.phase == Method then
      if c == SPACE then r.(phase := Path) else r.(verb := Keep(r.verb, c, METHOD_SIZE))
    else if r.phase == Path then
      if c == SPACE then PathEnds(r, env) else r.(path := Keep(r.path, c, PATH_SIZE))
    else if c == CR then r.(phase := AfterCR)
    else r.(version := Keep(r.version, c, VERSION_SIZE))
  }

  function EndStep(r: Request, c: byte, env: Env): (r': Request)
    requires Sane(r) && (r.phase == AfterCR || r.phase == AfterCRLF || r.phase == AfterCRLFCR)
    ensures Sane(r')
  {
    if r.phase == AfterCR then
      if c == LF then r.(phase := AfterCRLF) else HeaderOrEat(r)
    else if r.phase == AfterCRLF then
      if c == CR then r.(phase := AfterCRLFCR)
      else if HeaderOrEat(r).phase == HeaderName then NameStep(HeaderOrEat(r), c)
      else HeaderOrEat(r)
    else if c == LF then EndOfHeaders(r, env)
    else HeaderOrEat(r)
  }

  /** One round of requestParse's loop, or two when a header's first character is replayed. */
  function Step(r: Request, c: byte, env: Env): (r': Request)
    requires Sane(r)
    ensures Sane(r')
  {
    match r.phase
    case Method => LineStep(r, c, env)
    case Path => LineStep(r, c, env)
    case Version => LineStep(r, c, env)
    case HeaderName => NameStep(r, c)
    case HeaderValue => ValueStep(r, c)
    case AfterCR => EndStep(r, c, env)
    case AfterCRLF => EndStep(r, c, env)
    case AfterCRLFCR => EndStep(r, c, env)
    case InBody => BodyStep(r, c)
    case EatHeaders => if c == CR then r.(phase := AfterCR) else r
    case Done => if r.body.held then r.(bodyTruncated := true) else r
  }

  // ---------- fragments ----------

  function Feed(r: Request, s: seq<byte>, env: Env): (r': Request)
    requires Sane(r)
    ensures Sane(r')
    decreases |s|
  {
    if |s| == 0 then r else Feed(Step(r, s[0], env), s[1..], env)
  }

  /** However a request is cut into fragments, the request parsed is the same. */
  lemma {:induction false} FeedConcat(r: Request, a: seq<byte>, b: seq<byte>, env: Env)
    requires Sane(r)
    ensures Feed(r, a + b, env) == Feed(Feed(r, a, env), b, env)
    decreases |a|
  {
    hide Step, Sane;
    if |a| == 0 {
      assert a + b == b;
    } else {
      assert (a + b)[1..] == a[1..] + b;
      FeedConcat(Step(r, a[0], env), a[1..], b, env);
    }
  }

  function FeedAll(r: Request, fragments: seq<seq<byte>>, env: Env): (r': Request)
    requires Sane(r)
    ensures Sane(r')
    decreases |fragments|
  {
    if |fragments| == 0 then r else FeedAll(Feed(r, fragments[0], env), fragments[1..], env)
  }

  function Concat(fragments: seq<seq<byte>>): seq<byte> {
    if |fragments| == 0 then [] else fragments[0] + Concat(fragments[1..])
  }

  lemma {:induction false} FragmentsDoNotMatter(r: Request, fragments: seq<seq<byte>>, env: Env)
    requires Sane(r)
    ensures FeedAll(r, fragments, env) == Feed(r, Concat(fragments), env)
    decreases |fragments|
  {
    hide Feed, Sane;
    if |fragments| > 0 {
      FeedConcat(r, fragments[0], Concat(fragments[1..]), env);
      FragmentsDoNotMatter(Feed(r, fragments[0], env), fragments[1..], env);
    } else {
      FeedNothing(r, env);
    }
  }

  lemma {:induction false} FeedNothing(r: Request, env: Env)
    requires Sane(r)
    ensures Feed(r, [], env) == r
  {
  }

  lemma {:induction false} FeedFirst(r: Request, s: seq<byte>, env: Env)
    requires Sane(r) && |s| > 0
    ensures Feed(r, s, env) == Feed(Step(r, s[0], env), s[1..], env)
  {
  }

  lemma FreshIsSane()
    ensures Sane(Fresh())
  {
  }

  /** Once done, a request only remembers that more came. */
  lemma {:induction false} DoneStays(r: Request, s: seq<byte>, env: Env)
    requires Sane(r) && r.phase == Done
    ensures Feed(r, s, env) == if |s| > 0 && r.body.held then r.(bodyTruncated := true) else r
    decreases |s|
  {
    if |s| > 0 {
      DoneStays(Step(r, s[0], env), s[1..], env);
    }
  }
}
