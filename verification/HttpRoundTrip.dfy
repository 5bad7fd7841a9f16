/** A well-formed request is parsed by core/src/EmbeddableWebServer.h back to itself, as far
    as it fits the buffers. */
module HttpRoundTrip {
  import opened Common
  import opened UrlCodec
  import opened HttpModel

  datatype Field = Field(name: seq<byte>, value: seq<byte>)

  datatype Message = Message(verb: seq<byte>, path: seq<byte>, version: seq<byte>, fields: seq<Field>, body: seq<byte>)

  const EOL: seq<byte> := [CR, LF]

  function FieldLine(f: Field): seq<byte> {
    f.name + [COLON, SPACE] + f.value + EOL
  }

  function FieldLines(fields: seq<Field>): seq<byte> {
    if |fields| == 0 then [] else FieldLine(fields[0]) + FieldLines(fields[1..])
  }

  function RequestLine(m: Message): seq<byte> {
    m.verb + [SPACE] + (m.path + [SPACE]) + (m.version + EOL)
  }

  /** The request as it is sent. */
  function Printed(m: Message): seq<byte> {
    RequestLine(m) + FieldLines(m.fields) + EOL + m.body
  }

  /** Bytes as text. */
  function Chars(t: seq<byte>): (s: string)
    ensures |s| == |t| && forall k :: 0 <= k < |t| ==> s[k] == t[k] as char
  {
    seq(|t|, k requires 0 <= k < |t| => t[k] as char)
  }

  function FieldText(f: Field): string {
    Chars(f.name) + ": " + Chars(f.value) + "\r\n"
  }

  function FieldsText(fields: seq<Field>): string {
    if |fields| == 0 then "" else FieldText(fields[0]) + FieldsText(fields[1..])
  }

  /** What is sent is the text of a request of HTTP. */
  lemma PrintedText(m: Message)
    ensures Chars(Printed(m)) ==
      Chars(m.verb) + " " + Chars(m.path) + " " + Chars(m.version) + "\r\n" + FieldsText(m.fields) + "\r\n" + Chars(m.body)
  {
    FieldLinesText(m.fields);
    assert Chars([SPACE]) == " ";
    assert Chars(EOL) == "\r\n";
  }

  lemma {:induction false} FieldLinesText(fields: seq<Field>)
    ensures Chars(FieldLines(fields)) == FieldsText(fields)
  {
    if |fields| > 0 {
      FieldLinesText(fields[1..]);
      assert Chars([COLON, SPACE]) == ": ";
      assert Chars(EOL) == "\r\n";
      assert Chars(FieldLine(fields[0])) == FieldText(fields[0]);
    }
  }

  // ---------- one string into the pool ----------

  /** Where the next string of the pool starts. */
  function NextStart(offset: nat): nat {
    if offset == 0 then 0 else offset + 1
  }

  function Overwrite(bytes: seq<byte>, at: nat, t: seq<byte>): seq<byte>
    requires at + |t| <= |bytes|
  {
    bytes[..at] + t + bytes[at + |t|..]
  }

  /** The pool with one more string. */
  function Filled(pool: Pool, t: seq<byte>): (p: Pool)
    requires PoolOk(pool) && NextStart(pool.offset) + |t| <= POOL_LIMIT
    ensures PoolOk(p)
  {
    var start := NextStart(pool.offset);
    pool.(bytes := Overwrite(pool.bytes, start, t), offset := start + |t|)
  }

  function PutAll(s: PoolString, pool: Pool, t: seq<byte>): (r: (PoolString, Pool))
    requires PoolOk(pool) && StringOk(s, pool)
    ensures PoolOk(r.1) && StringOk(r.0, r.1)
    decreases |t|
  {
    if |t| == 0 then (s, pool) else var put := Put(s, pool, t[0]); PutAll(put.0, put.1, t[1..])
  }

  lemma {:induction false} PutMore(pool: Pool, start: nat, k: nat, t: seq<byte>)
    requires PoolOk(pool) && pool.offset == start + k && pool.offset + |t| <= POOL_LIMIT
    ensures PutAll(At(start, k), pool, t) ==
      (At(start, k + |t|), pool.(bytes := Overwrite(pool.bytes, pool.offset, t), offset := pool.offset + |t|))
    decreases |t|
  {
    var at := pool.offset;
    if |t| == 0 {
      assert Overwrite(pool.bytes, at, t) == pool.bytes;
    } else {
      var put := Put(At(start, k), pool, t[0]);
      assert put == (At(start, k + 1), pool.(bytes := pool.bytes[at := t[0]], offset := at + 1));
      PutMore(put.1, start, k + 1, t[1..]);
      assert Overwrite(pool.bytes[at := t[0]], at + 1, t[1..]) == Overwrite(pool.bytes, at, t);
    }
  }

  /** Characters put into a fresh string become the pool's next string. */
  lemma {:induction false} PutAllFills(pool: Pool, t: seq<byte>)
    requires PoolOk(pool) && |t| > 0 && NextStart(pool.offset) + |t| <= POOL_LIMIT
    ensures PutAll(Unset, pool, t) == (At(NextStart(pool.offset), |t|), Filled(pool, t))
  {
    var start := NextStart(pool.offset);
    var begun := pool.(offset := start);
    assert Put(Unset, pool, t[0]) == Put(At(start, 0), begun, t[0]);
    PutMore(begun, start, 0, t);
  }

  // ---------- one field ----------

  predicate GoodName(t: seq<byte>) {
    |t| > 0 && COLON !in t && CR !in t && 0 !in t
  }

  predicate GoodValue(t: seq<byte>) {
    |t| > 0 && t[0] != SPACE && CR !in t && 0 !in t
  }

  lemma {:induction false} NameFeeds(r: Request, t: seq<byte>, env: Env)
    requires Sane(r) && r.phase == HeaderName && COLON !in t && CR !in t
    ensures var put := PutAll(r.current.name, r.pool, t);
      Feed(r, t, env) == r.(current := r.current.(name := put.0), pool := put.1)
    decreases |t|
  {
    if |t| > 0 {
      hide Sane, Put;
      NameFeeds(Step(r, t[0], env), t[1..], env);
    }
  }

  lemma {:induction false} ValueFeeds(r: Request, t: seq<byte>, env: Env)
    requires Sane(r) && r.phase == HeaderValue && CR !in t
    requires |t| > 0 && Length(r.current.value) == 0 ==> t[0] != SPACE && r.pool.offset + 1 + |t| <= POOL_LIMIT
    requires r.pool.offset + |t| <= POOL_LIMIT
    ensures var put := PutAll(r.current.value, r.pool, t);
      Feed(r, t, env) == r.(current := r.current.(value := put.0), pool := put.1)
    decreases |t|
  {
    if |t| > 0 {
      ValueFeeds(Step(r, t[0], env), t[1..], env);
    }
  }

  function AfterField(offset: nat, f: Field): nat {
    NextStart(NextStart(offset) + |f.name|) + |f.value|
  }

  /** The request with one more header accepted. */
  function WithField(r: Request, f: Field): (r': Request)
    requires Sane(r) && r.phase == AfterCRLF && GoodName(f.name) && GoodValue(f.value)
    requires |r.accepted| < MAX_HEADERS && AfterField(r.pool.offset, f) <= POOL_LIMIT
    ensures Sane(r') && r'.pool.offset == AfterField(r.pool.offset, f)
  {
    var named := Filled(r.pool, f.name);
    var full := Filled(named, f.value);
    var h := Header(At(NextStart(r.pool.offset), |f.name|), At(NextStart(named.offset), |f.value|));
    r.(accepted := r.accepted + [h], current := BLANK, pool := full, phase := AfterCRLF)
  }

  lemma {:induction false} FeedOne(r: Request, c: byte, env: Env)
    requires Sane(r)
    ensures Feed(r, [c], env) == Step(r, c, env)
  {
    hide Step;
    assert [c][1..] == [];
  }

  /** The name of a field with its colon, from the end of the line before. */
  lemma {:induction false} NameArrives(r: Request, t: seq<byte>, env: Env)
    requires Sane(r) && r.phase == AfterCRLF && r.current == BLANK && GoodName(t)
    requires |r.accepted| < MAX_HEADERS && !r.pool.exhausted && NextStart(r.pool.offset) + |t| <= POOL_LIMIT
    ensures Feed(r, t + [COLON], env) ==
      r.(current := Header(At(NextStart(r.pool.offset), |t|), Unset), pool := Filled(r.pool, t), phase := HeaderValue)
  {
    var h := r.(phase := HeaderName);
    assert Sane(h);
    assert Step(r, t[0], env) == Step(h, t[0], env);
    FeedConcat(r, t, [COLON], env);
    PutAllFills(r.pool, t);
    NameFeeds(h, t, env);
    hide Step, Sane;
    assert Feed(r, t, env) == Feed(h, t, env);
    var named := h.(current := Header(At(NextStart(r.pool.offset), |t|), Unset), pool := Filled(r.pool, t));
    assert Feed(h, t, env) == named;
    FeedOne(named, COLON, env);
    AtColon(named, env);
  }

  lemma AtColon(r: Request, env: Env)
    requires Sane(r) && r.phase == HeaderName
    ensures Step(r, COLON, env) == r.(phase := HeaderValue)
  {
  }

  /** The value of a field, from after the colon to the end of its line. */
  lemma {:induction false} ValueArrives(r: Request, t: seq<byte>, env: Env)
    requires Sane(r) && r.phase == HeaderValue && r.current.value == Unset && Length(r.current.name) > 0 && GoodValue(t)
    requires r.pool.offset > 0 && r.pool.offset + 1 + |t| <= POOL_LIMIT
    ensures Feed(r, [SPACE] + t + EOL, env) ==
      r.(accepted := r.accepted + [r.current.(value := At(r.pool.offset + 1, |t|))], current := BLANK,
         pool := Filled(r.pool, t), phase := AfterCRLF)
  {
    hide Feed;
    FeedConcat(r, [SPACE] + t, EOL, env);
    FeedConcat(r, [SPACE], t, env);
    FeedOne(r, SPACE, env);
    assert Step(r, SPACE, env) == r;
    PutAllFills(r.pool, t);
    ValueFeeds(r, t, env);
    var valued := r.(current := r.current.(value := At(r.pool.offset + 1, |t|)), pool := Filled(r.pool, t));
    assert Feed(r, t, env) == valued;
    LineEnds(valued, env);
  }

  lemma {:induction false} LineEnds(r: Request, env: Env)
    requires Sane(r) && r.phase == HeaderValue && Length(r.current.name) > 0 && Length(r.current.value) > 0
    ensures Feed(r, EOL, env) == r.(accepted := r.accepted + [r.current], current := BLANK, phase := AfterCRLF)
  {
    var t := Step(r, CR, env);
    assert t == r.(accepted := r.accepted + [r.current], current := BLANK, phase := AfterCR);
    assert Step(t, LF, env) == t.(phase := AfterCRLF);
    hide Feed, Step, Sane;
    assert EOL == [CR] + [LF];
    FeedConcat(r, [CR], [LF], env);
    FeedOne(r, CR, env);
    FeedOne(t, LF, env);
  }

  /** One field line adds one header, its strings next in the pool. */
  lemma {:induction false} FieldArrives(r: Request, f: Field, env: Env)
    requires Sane(r) && r.phase == AfterCRLF && r.current == BLANK && !r.pool.exhausted
    requires GoodName(f.name) && GoodValue(f.value)
    requires |r.accepted| < MAX_HEADERS && AfterField(r.pool.offset, f) <= POOL_LIMIT
    ensures Feed(r, FieldLine(f), env) == WithField(r, f)
  {
    hide Feed, Step;
    assert FieldLine(f) == (f.name + [COLON]) + ([SPACE] + f.value + EOL);
    FeedConcat(r, f.name + [COLON], [SPACE] + f.value + EOL, env);
    NameArrives(r, f.name, env);
    ValueArrives(Feed(r, f.name + [COLON], env), f.value, env);
  }

  /** A field without a value is no header, but its name is kept and begins the next one's. */
  lemma {:induction false} EmptyFieldSticks(r: Request, a: seq<byte>, f: Field, env: Env)
    requires Sane(r) && r.phase == AfterCRLF && r.current == BLANK && !r.pool.exhausted
    requires GoodName(a) && GoodName(f.name) && GoodValue(f.value) && |r.accepted| < MAX_HEADERS
    requires AfterField(r.pool.offset, Field(a + f.name, f.value)) <= POOL_LIMIT
    ensures GoodName(a + f.name)
    ensures Feed(r, a + [COLON] + EOL + FieldLine(f), env) == WithField(r, Field(a + f.name, f.value))
  {
    hide Feed, Step, Filled;
    var s := r.(current := Header(At(NextStart(r.pool.offset), |a|), Unset), pool := Filled(r.pool, a), phase := HeaderValue);
    NameArrives(r, a, env);
    EmptyValueEnds(s, env);
    var named := s.(phase := AfterCRLF);
    FilledJoin(r.pool, a, f.name);
    NameGoesOn(named, f.name, env);
    assert FieldLine(f) == (f.name + [COLON]) + ([SPACE] + f.value + EOL);
    FeedConcat(r, a + [COLON] + EOL, FieldLine(f), env);
    FeedConcat(r, a + [COLON], EOL, env);
    FeedConcat(named, f.name + [COLON], [SPACE] + f.value + EOL, env);
    ValueArrives(Feed(named, f.name + [COLON], env), f.value, env);
  }

  lemma EmptyValueEnds(r: Request, env: Env)
    requires Sane(r) && r.phase == HeaderValue && Length(r.current.value) == 0
    ensures Feed(r, EOL, env) == r.(phase := AfterCRLF)
  {
    var t := Step(r, CR, env);
    assert t == r.(phase := AfterCR) && Step(t, LF, env) == t.(phase := AfterCRLF);
    hide Feed, Step, Sane;
    assert EOL == [CR] + [LF];
    FeedConcat(r, [CR], [LF], env);
    FeedOne(r, CR, env);
    FeedOne(t, LF, env);
  }

  lemma FilledJoin(pool: Pool, a: seq<byte>, b: seq<byte>)
    requires PoolOk(pool) && |a| > 0 && NextStart(pool.offset) + |a + b| <= POOL_LIMIT
    ensures var p := Filled(pool, a);
      && p.offset == NextStart(pool.offset) + |a| && p.exhausted == pool.exhausted
      && p.(bytes := Overwrite(p.bytes, p.offset, b), offset := p.offset + |b|) == Filled(pool, a + b)
  {
    var p, start := Filled(pool, a), NextStart(pool.offset);
    assert Overwrite(p.bytes, p.offset, b) == Overwrite(pool.bytes, start, a + b);
  }

  /** A name that goes on where the one before it stopped. */
  lemma {:induction false} NameGoesOn(r: Request, t: seq<byte>, env: Env)
    requires Sane(r) && r.phase == AfterCRLF && GoodName(t) && |r.accepted| < MAX_HEADERS && !r.pool.exhausted
    requires r.current.name.At? && r.pool.offset == r.current.name.start + r.current.name.length
    requires r.pool.offset + |t| <= POOL_LIMIT
    ensures Feed(r, t + [COLON], env) ==
      r.(current := r.current.(name := At(r.current.name.start, r.current.name.length + |t|)),
         pool := r.pool.(bytes := Overwrite(r.pool.bytes, r.pool.offset, t), offset := r.pool.offset + |t|),
         phase := HeaderValue)
  {
    hide Feed, Step, Sane, Put, PutAll, Overwrite;
    var h := r.(phase := HeaderName);
    NameBegins(r, t, env);
    PutMore(r.pool, r.current.name.start, r.current.name.length, t);
    NameFeeds(h, t, env);
    FeedConcat(r, t, [COLON], env);
    FeedOne(Feed(h, t, env), COLON, env);
    AtColon(Feed(h, t, env), env);
  }

  /** A line's first character is read again as the first of a name. */
  lemma NameBegins(r: Request, t: seq<byte>, env: Env)
    requires Sane(r) && r.phase == AfterCRLF && GoodName(t) && |r.accepted| < MAX_HEADERS && !r.pool.exhausted
    ensures Sane(r.(phase := HeaderName)) && Feed(r, t, env) == Feed(r.(phase := HeaderName), t, env)
    ensures PoolOk(r.pool) && StringOk(r.current.name, r.pool)
  {
    var h := r.(phase := HeaderName);
    assert Step(r, t[0], env) == Step(h, t[0], env);
  }

  // ---------- all the fields ----------

  function AfterFields(offset: nat, fields: seq<Field>): nat
    decreases |fields|
  {
    if |fields| == 0 then offset else AfterFields(AfterField(offset, fields[0]), fields[1..])
  }

  lemma {:induction false} OffsetGrows(offset: nat, fields: seq<Field>)
    ensures offset <= AfterFields(offset, fields)
    decreases |fields|
  {
    if |fields| > 0 {
      OffsetGrows(AfterField(offset, fields[0]), fields[1..]);
    }
  }

  predicate GoodField(f: Field) {
    GoodName(f.name) && GoodValue(f.value)
  }

  predicate GoodFields(fields: seq<Field>) {
    forall i :: 0 <= i < |fields| ==> GoodField(fields[i])
  }

  /** A header's name or value is the text, with a null after it. */
  predicate Reads(s: PoolString, pool: Pool, text: seq<byte>) {
    s.At? && s.length == |text| && s.start + |text| <= pool.offset && pool.offset <= POOL_LIMIT
    && |pool.bytes| == POOL_SIZE
    && pool.bytes[s.start..s.start + |text|] == text && pool.bytes[s.start + |text|] == 0
  }

  predicate Shows(h: Header, pool: Pool, f: Field) {
    Reads(h.name, pool, f.name) && Reads(h.value, pool, f.value)
  }

  /** The headers are the fields. */
  predicate ShowsAll(headers: seq<Header>, pool: Pool, fields: seq<Field>) {
    |headers| == |fields| && forall i :: 0 <= i < |fields| ==> Shows(headers[i], pool, fields[i])
  }

  lemma NewIsRead(pool: Pool, t: seq<byte>)
    requires PoolOk(pool) && |t| > 0 && NextStart(pool.offset) + |t| <= POOL_LIMIT
    ensures Reads(At(NextStart(pool.offset), |t|), Filled(pool, t), t)
  {
    var start := NextStart(pool.offset);
    assert Filled(pool, t).bytes[start..start + |t|] == t;
  }

  lemma OldIsRead(s: PoolString, pool: Pool, text: seq<byte>, t: seq<byte>)
    requires PoolOk(pool) && NextStart(pool.offset) + |t| <= POOL_LIMIT && Reads(s, pool, text) && |text| > 0
    ensures Reads(s, Filled(pool, t), text)
  {
    var bytes := Filled(pool, t).bytes;
    assert bytes[..pool.offset + 1] == pool.bytes[..pool.offset + 1];
    SamePrefix(bytes, pool.bytes, pool.offset + 1, s.start, s.start + |text|);
  }

  lemma SamePrefix(a: seq<byte>, b: seq<byte>, n: nat, i: nat, j: nat)
    requires i <= j < n <= |a| && n <= |b| && a[..n] == b[..n]
    ensures a[i..j] == b[i..j] && a[j] == b[j]
  {
    assert a[..n][i..j] == a[i..j] && b[..n][i..j] == b[i..j];
    assert a[..n][j] == a[j] && b[..n][j] == b[j];
  }

  lemma WithFieldShows(r: Request, f: Field, fields: seq<Field>)
    requires Sane(r) && r.phase == AfterCRLF && GoodField(f) && GoodFields(fields) && ShowsAll(r.accepted, r.pool, fields)
    requires |r.accepted| < MAX_HEADERS && AfterField(r.pool.offset, f) <= POOL_LIMIT
    ensures ShowsAll(WithField(r, f).accepted, WithField(r, f).pool, fields + [f])
  {
    hide Reads, Filled;
    var named := Filled(r.pool, f.name);
    var start := NextStart(r.pool.offset);
    FilledOffset(r.pool, f.name);
    NewIsRead(r.pool, f.name);
    NewIsRead(named, f.value);
    OldIsRead(At(start, |f.name|), named, f.name, f.value);
    forall i | 0 <= i < |fields| ensures Shows(r.accepted[i], Filled(named, f.value), fields[i]) {
      var h := r.accepted[i];
      assert Shows(h, r.pool, fields[i]) && GoodField(fields[i]);
      OldIsRead(h.name, r.pool, fields[i].name, f.name);
      OldIsRead(h.value, r.pool, fields[i].value, f.name);
      OldIsRead(h.name, named, fields[i].name, f.value);
      OldIsRead(h.value, named, fields[i].value, f.value);
    }
  }

  lemma FilledOffset(pool: Pool, t: seq<byte>)
    requires PoolOk(pool) && NextStart(pool.offset) + |t| <= POOL_LIMIT
    ensures Filled(pool, t).offset == NextStart(pool.offset) + |t| && Filled(pool, t).exhausted == pool.exhausted
  {
  }

  lemma WithFieldKeeps(r: Request, f: Field)
    requires Sane(r) && r.phase == AfterCRLF && r.current == BLANK && GoodField(f)
    requires |r.accepted| < MAX_HEADERS && AfterField(r.pool.offset, f) <= POOL_LIMIT
    ensures var t := WithField(r, f);
      t == r.(accepted := t.accepted, pool := t.pool) && |t.accepted| == |r.accepted| + 1
      && t.pool.exhausted == r.pool.exhausted
  {
  }

  function WithFields(r: Request, fields: seq<Field>): (r': Request)
    requires Sane(r) && r.phase == AfterCRLF && GoodFields(fields)
    requires |r.accepted| + |fields| <= MAX_HEADERS && AfterFields(r.pool.offset, fields) <= POOL_LIMIT
    ensures Sane(r') && r'.phase == AfterCRLF
    decreases |fields|
  {
    if |fields| == 0 then r
    else
      OffsetGrows(AfterField(r.pool.offset, fields[0]), fields[1..]);
      assert GoodField(fields[0]);
      WithFields(WithField(r, fields[0]), fields[1..])
  }

  lemma {:induction false} FieldsArrive(r: Request, fields: seq<Field>, env: Env)
    requires Sane(r) && r.phase == AfterCRLF && r.current == BLANK && !r.pool.exhausted && GoodFields(fields)
    requires |r.accepted| + |fields| <= MAX_HEADERS && AfterFields(r.pool.offset, fields) <= POOL_LIMIT
    ensures Feed(r, FieldLines(fields), env) == WithFields(r, fields)
    decreases |fields|
  {
    if |fields| == 0 {
      FeedNothing(r, env);
    } else {
      hide Feed, FieldLine, Sane, GoodName, GoodValue;
      OffsetGrows(AfterField(r.pool.offset, fields[0]), fields[1..]);
      assert GoodField(fields[0]);
      FeedConcat(r, FieldLine(fields[0]), FieldLines(fields[1..]), env);
      FieldArrives(r, fields[0], env);
      FieldsArrive(WithField(r, fields[0]), fields[1..], env);
    }
  }

  /** What the fields leave in the request: their headers, and nothing else but the pool. */
  lemma {:induction false} WithFieldsShows(r: Request, fields: seq<Field>, seen: seq<Field>)
    requires Sane(r) && r.phase == AfterCRLF && r.current == BLANK && GoodFields(fields) && GoodFields(seen)
    requires |r.accepted| + |fields| <= MAX_HEADERS && AfterFields(r.pool.offset, fields) <= POOL_LIMIT
    requires ShowsAll(r.accepted, r.pool, seen)
    ensures var t := WithFields(r, fields);
      && ShowsAll(t.accepted, t.pool, seen + fields)
      && t == r.(accepted := t.accepted, pool := t.pool) && t.pool.exhausted == r.pool.exhausted
    decreases |fields|
  {
    hide ShowsAll, Sane, GoodName, GoodValue, WithField, AfterField, Filled;
    if |fields| == 0 {
      assert seen + fields == seen;
    } else {
      OffsetGrows(AfterField(r.pool.offset, fields[0]), fields[1..]);
      assert GoodField(fields[0]);
      WithFieldShows(r, fields[0], seen);
      WithFieldKeeps(r, fields[0]);
      assert seen + fields == (seen + [fields[0]]) + fields[1..];
      WithFieldsShows(WithField(r, fields[0]), fields[1..], seen + [fields[0]]);
    }
  }

  // ---------- the request line ----------

  predicate GoodLine(m: Message) {
    SPACE !in m.verb && SPACE !in m.path && CR !in m.version
  }

  /** As much of a text as a buffer takes, and whether any of it was cut off. */
  function Fit(t: seq<byte>, room: nat): Line {
    Line(if |t| <= room then t else t[..room], |t| > room)
  }

  function KeepAll(line: Line, t: seq<byte>, size: nat): (r: Line)
    requires |line.kept| < size
    ensures |r.kept| < size
    decreases |t|
  {
    if |t| == 0 then line else KeepAll(Keep(line, t[0], size), t[1..], size)
  }

  lemma {:induction false} KeepAllFits(seen: seq<byte>, t: seq<byte>, size: nat)
    requires size > 0
    ensures KeepAll(Fit(seen, size - 1), t, size) == Fit(seen + t, size - 1)
    decreases |t|
  {
    if |t| == 0 {
      assert seen + t == seen;
    } else {
      assert Keep(Fit(seen, size - 1), t[0], size) == Fit(seen + [t[0]], size - 1);
      KeepAllFits(seen + [t[0]], t[1..], size);
      assert seen + [t[0]] + t[1..] == seen + t;
    }
  }

  /** A text put into a fresh buffer. */
  lemma KeptFits(t: seq<byte>, size: nat)
    requires size > 0
    ensures KeepAll(NOTHING, t, size) == Fit(t, size - 1)
  {
    KeepAllFits([], t, size);
    assert [] + t == t;
  }

  lemma VerbKeeps(r: Request, c: byte, env: Env)
    requires Sane(r) && r.phase == Method && c != SPACE
    ensures Step(r, c, env) == r.(verb := Keep(r.verb, c, METHOD_SIZE))
  {
  }

  lemma {:induction false} VerbFeeds(r: Request, t: seq<byte>, env: Env)
    requires Sane(r) && r.phase == Method && SPACE !in t
    ensures Feed(r, t, env) == r.(verb := KeepAll(r.verb, t, METHOD_SIZE))
    decreases |t|
  {
    hide Feed, Step, Keep;
    if |t| == 0 {
      FeedNothing(r, env);
    } else {
      VerbKeeps(r, t[0], env);
      FeedFirst(r, t, env);
      VerbFeeds(Step(r, t[0], env), t[1..], env);
    }
  }

  lemma PathKeeps(r: Request, c: byte, env: Env)
    requires Sane(r) && r.phase == Path && c != SPACE
    ensures Step(r, c, env) == r.(path := Keep(r.path, c, PATH_SIZE))
  {
  }

  lemma {:induction false} PathFeeds(r: Request, t: seq<byte>, env: Env)
    requires Sane(r) && r.phase == Path && SPACE !in t
    ensures Feed(r, t, env) == r.(path := KeepAll(r.path, t, PATH_SIZE))
    decreases |t|
  {
    hide Feed, Step, Keep;
    if |t| == 0 {
      FeedNothing(r, env);
    } else {
      PathKeeps(r, t[0], env);
      FeedFirst(r, t, env);
      PathFeeds(Step(r, t[0], env), t[1..], env);
    }
  }

  lemma VersionKeeps(r: Request, c: byte, env: Env)
    requires Sane(r) && r.phase == Version && c != CR
    ensures Step(r, c, env) == r.(version := Keep(r.version, c, VERSION_SIZE))
  {
  }

  lemma {:induction false} VersionFeeds(r: Request, t: seq<byte>, env: Env)
    requires Sane(r) && r.phase == Version && CR !in t
    ensures Feed(r, t, env) == r.(version := KeepAll(r.version, t, VERSION_SIZE))
    decreases |t|
  {
    hide Feed, Step, Keep;
    if |t| == 0 {
      FeedNothing(r, env);
    } else {
      VersionKeeps(r, t[0], env);
      FeedFirst(r, t, env);
      VersionFeeds(Step(r, t[0], env), t[1..], env);
    }
  }

  /** The request with its first line read. */
  function WithLine(m: Message, env: Env): Request {
    Fresh().(phase := AfterCRLF, verb := Fit(m.verb, 63), path := Fit(m.path, 1023),
             decoded := Unescape(CString(Fit(m.path, 1023).kept), env.hex), version := Fit(m.version, 15))
  }

  lemma {:induction false} LineArrives(m: Message, env: Env)
    requires GoodLine(m)
    ensures Sane(Fresh()) && Sane(WithLine(m, env)) && Feed(Fresh(), RequestLine(m), env) == WithLine(m, env)
  {
    FreshIsSane();
    PathFits(Fit(m.path, 1023).kept, env.hex);
    var a := Fresh().(verb := Fit(m.verb, 63));
    var b := a.(phase := Path, path := Fit(m.path, 1023));
    var c := b.(phase := Version, decoded := Unescape(CString(Fit(m.path, 1023).kept), env.hex));
    VerbArrives(m.verb, env);
    PathArrives(a, m.path, env);
    VersionArrives(c, m.version, env);
    hide Feed, Sane, Fresh, Fit;
    FeedConcat(Fresh(), m.verb + [SPACE] + (m.path + [SPACE]), m.version + EOL, env);
    FeedConcat(Fresh(), m.verb + [SPACE], m.path + [SPACE], env);
  }

  lemma {:induction false} VerbArrives(t: seq<byte>, env: Env)
    requires SPACE !in t
    ensures Sane(Fresh()) && Feed(Fresh(), t + [SPACE], env) == Fresh().(verb := Fit(t, 63), phase := Path)
  {
    var r := Fresh();
    VerbFeeds(r, t, env);
    KeptFits(t, METHOD_SIZE);
    var s := r.(verb := Fit(t, 63));
    assert Step(s, SPACE, env) == s.(phase := Path);
    hide Feed, Step, Sane, Fit;
    FeedConcat(r, t, [SPACE], env);
    FeedOne(s, SPACE, env);
  }

  lemma {:induction false} PathArrives(r: Request, t: seq<byte>, env: Env)
    requires Sane(r) && r.phase == Method && r.path == NOTHING && SPACE !in t
    ensures Sane(r.(phase := Path))
    ensures Feed(r.(phase := Path), t + [SPACE], env) ==
      r.(path := Fit(t, 1023), decoded := Unescape(CString(Fit(t, 1023).kept), env.hex), phase := Version)
  {
    var p := r.(phase := Path);
    PathFeeds(p, t, env);
    KeptFits(t, PATH_SIZE);
    var s := p.(path := Fit(t, 1023));
    assert Step(s, SPACE, env) == s.(phase := Version, decoded := Unescape(CString(s.path.kept), env.hex));
    hide Feed, Step, Sane, Fit;
    FeedConcat(p, t, [SPACE], env);
    FeedOne(s, SPACE, env);
  }

  lemma {:induction false} VersionArrives(r: Request, t: seq<byte>, env: Env)
    requires Sane(r) && r.phase == Version && r.version == NOTHING && CR !in t
    ensures Feed(r, t + EOL, env) == r.(version := Fit(t, 15), phase := AfterCRLF)
  {
    hide Feed, Step, Sane, Fit, KeepAll;
    VersionFeeds(r, t, env);
    KeptFits(t, VERSION_SIZE);
    var s := Feed(r, t, env);
    var u := s.(phase := AfterCR);
    VersionEnds(s, env);
    FeedConcat(r, t, EOL, env);
    assert EOL == [CR] + [LF];
    FeedConcat(s, [CR], [LF], env);
    FeedOne(s, CR, env);
    FeedOne(u, LF, env);
  }

  lemma VersionEnds(r: Request, env: Env)
    requires Sane(r) && r.phase == Version
    ensures var u := r.(phase := AfterCR);
      Sane(u) && Step(r, CR, env) == u && Step(u, LF, env) == u.(phase := AfterCRLF)
  {
  }

  // ---------- lines that are not kept ----------

  /** Without a free header, or room in the pool, a line leaves nothing but its warning. */
  lemma {:induction false} LineEaten(r: Request, t: seq<byte>, env: Env)
    requires Sane(r) && r.phase == AfterCRLF && HeaderOrEat(r).phase == EatHeaders && |t| > 0 && CR !in t
    ensures Feed(r, t + EOL, env) == HeaderOrEat(r).(phase := AfterCRLF)
  {
    hide Feed, Sane;
    var e := HeaderOrEat(r);
    var u := e.(phase := AfterCR);
    assert Step(r, t[0], env) == e && Step(e, CR, env) == u && Step(u, LF, env) == u.(phase := AfterCRLF);
    hide Step, HeaderOrEat;
    assert t + EOL == [t[0]] + (t[1..] + ([CR] + [LF]));
    FeedConcat(r, [t[0]], t[1..] + ([CR] + [LF]), env);
    FeedOne(r, t[0], env);
    FeedConcat(e, t[1..], [CR] + [LF], env);
    Eats(e, t[1..], env);
    FeedConcat(e, [CR], [LF], env);
    FeedOne(e, CR, env);
    FeedOne(u, LF, env);
  }

  lemma {:induction false} Eats(r: Request, t: seq<byte>, env: Env)
    requires Sane(r) && r.phase == EatHeaders && CR !in t
    ensures Feed(r, t, env) == r
    decreases |t|
  {
    hide Sane;
    if |t| > 0 {
      assert Step(r, t[0], env) == r;
      Eats(r, t[1..], env);
    }
  }

  lemma {:induction false} LinesEaten(r: Request, fields: seq<Field>, env: Env)
    requires Sane(r) && r.phase == AfterCRLF && HeaderOrEat(r).phase == EatHeaders && GoodFields(fields)
    ensures Feed(r, FieldLines(fields), env) == if |fields| == 0 then r else HeaderOrEat(r).(phase := AfterCRLF)
    decreases |fields|
  {
    hide Feed, Sane;
    if |fields| == 0 {
      FeedNothing(r, env);
    } else {
      var f := fields[0];
      var line := f.name + [COLON, SPACE] + f.value;
      assert GoodField(f) && FieldLine(f) == line + EOL;
      LineEaten(r, line, env);
      FeedConcat(r, FieldLine(f), FieldLines(fields[1..]), env);
      LinesEaten(HeaderOrEat(r).(phase := AfterCRLF), fields[1..], env);
    }
  }

  lemma {:induction false} FieldLinesJoin(a: seq<Field>, b: seq<Field>)
    ensures FieldLines(a + b) == FieldLines(a) + FieldLines(b)
  {
    hide FieldLine;
    if |a| == 0 {
      assert a + b == b;
    } else {
      assert (a + b)[1..] == a[1..] + b;
      FieldLinesJoin(a[1..], b);
    }
  }

  /** Whatever a line holds, kept, cut short or eaten: after it the parser is where it was. */
  lemma {:induction false} LineReturns(r: Request, t: seq<byte>, env: Env)
    requires Sane(r) && r.phase == AfterCRLF && |t| > 0 && CR !in t
    ensures Feed(r, t + EOL, env).phase == AfterCRLF
  {
    hide Feed, Step, Sane;
    var s := Step(r, t[0], env);
    StaysInLine(r, t[0], env);
    assert t + EOL == [t[0]] + (t[1..] + EOL);
    FeedConcat(r, [t[0]], t[1..] + EOL, env);
    FeedOne(r, t[0], env);
    LineGoesOn(s, t[1..], env);
  }

  predicate InLine(p: Phase) {
    p == HeaderName || p == HeaderValue || p == EatHeaders
  }

  lemma StaysInLine(r: Request, c: byte, env: Env)
    requires Sane(r) && (r.phase == AfterCRLF || InLine(r.phase))
    ensures c != CR ==> InLine(Step(r, c, env).phase)
    ensures c == CR && InLine(r.phase) ==> Step(r, c, env).phase == AfterCR
  {
    hide Sane, Put;
  }

  lemma {:induction false} LineGoesOn(r: Request, t: seq<byte>, env: Env)
    requires Sane(r) && InLine(r.phase) && CR !in t
    ensures Feed(r, t + EOL, env).phase == AfterCRLF
    decreases |t|
  {
    hide Feed, Step, Sane;
    if |t| == 0 {
      StaysInLine(r, CR, env);
      var s := Step(r, CR, env);
      AfterReturn(s, env);
      assert t + EOL == [CR] + [LF];
      FeedConcat(r, [CR], [LF], env);
      FeedOne(r, CR, env);
      FeedOne(s, LF, env);
    } else {
      StaysInLine(r, t[0], env);
      FeedFirst(r, t + EOL, env);
      assert (t + EOL)[1..] == t[1..] + EOL;
      LineGoesOn(Step(r, t[0], env), t[1..], env);
    }
  }

  lemma AfterReturn(r: Request, env: Env)
    requires Sane(r) && r.phase == AfterCR
    ensures Step(r, LF, env).phase == AfterCRLF
  {
    hide Sane;
  }

  function Lines(lines: seq<seq<byte>>): seq<byte> {
    if |lines| == 0 then [] else lines[0] + EOL + Lines(lines[1..])
  }

  /** However many lines follow the first one, however long, with whatever in them, the empty
      line after them ends the headers. */
  lemma {:induction false} HeadersAlwaysEnd(r: Request, lines: seq<seq<byte>>, env: Env)
    requires Sane(r) && r.phase == AfterCRLF && forall k :: 0 <= k < |lines| ==> |lines[k]| > 0 && CR !in lines[k]
    ensures Feed(r, Lines(lines) + EOL, env).phase == Done || Feed(r, Lines(lines) + EOL, env).phase == InBody
    decreases |lines|
  {
    hide Feed, Sane;
    if |lines| == 0 {
      var s := r.(phase := AfterCRLFCR);
      assert Step(r, CR, env) == s && Step(s, LF, env) == EndOfHeaders(s, env);
      assert Lines(lines) + EOL == [CR] + [LF];
      hide Step;
      FeedConcat(r, [CR], [LF], env);
      FeedOne(r, CR, env);
      FeedOne(s, LF, env);
    } else {
      LineReturns(r, lines[0], env);
      assert Lines(lines) + EOL == (lines[0] + EOL) + (Lines(lines[1..]) + EOL);
      FeedConcat(r, lines[0] + EOL, Lines(lines[1..]) + EOL, env);
      HeadersAlwaysEnd(Feed(r, lines[0] + EOL, env), lines[1..], env);
    }
  }

  // ---------- the end of the headers, and the body ----------

  /** The first field with the name, whatever its case. */
  function FindField(fields: seq<Field>, name: seq<byte>): Option<Field> {
    if |fields| == 0 then None
    else if LowerAll(fields[0].name) == name then Some(fields[0])
    else FindField(fields[1..], name)
  }

  /** As a C string too, a header's text is the field's. */
  lemma ReadsAsCString(s: PoolString, pool: Pool, text: seq<byte>)
    requires Reads(s, pool, text) && 0 !in text
    ensures CString(pool.bytes[s.start..]) == text
  {
    var tail := pool.bytes[s.start..];
    assert tail == pool.bytes[s.start..s.start + |text|] + pool.bytes[s.start + |text|..];
    CutAfter(text, pool.bytes[s.start + |text|..], 0);
  }

  lemma {:induction false} FindsField(r: Request, fields: seq<Field>, i: nat, name: seq<byte>)
    requires Sane(r) && ShowsAll(r.accepted, r.pool, fields) && GoodFields(fields) && i <= |fields|
    ensures var h, f := FindHeader(r, i, name), FindField(fields[i..], name);
      (h.Some? <==> f.Some?) && (f.Some? ==> Shows(h.value, r.pool, f.value) && GoodField(f.value))
    decreases |fields| - i
  {
    if i < |fields| {
      hide CString, Reads, Sane;
      assert Shows(r.accepted[i], r.pool, fields[i]) && GoodField(fields[i]);
      ReadsAsCString(r.accepted[i].name, r.pool, fields[i].name);
      NameIsSet(r, i);
      assert fields[i..][1..] == fields[i + 1..];
      FindsField(r, fields, i + 1, name);
    }
  }

  lemma NameIsSet(r: Request, i: nat)
    requires Sane(r) && i < |r.accepted|
    ensures HeaderOk(r.accepted[i], r.pool) && r.accepted[i].name.At? && r.accepted[i].value.At?
  {
  }

  /** Two letters are one up to case, or the characters are the same. */
  predicate SameLetter(c: byte, d: byte) {
    c == d || exists k | 0 <= k < 26 :: {c as char, d as char} == {"abcdefghijklmnopqrstuvwxyz"[k], "ABCDEFGHIJKLMNOPQRSTUVWXYZ"[k]}
  }

  /** Names are compared without regard to the case of letters, and of nothing else. */
  lemma NamesInAnyCase(s: seq<byte>, t: seq<byte>)
    ensures LowerAll(s) == LowerAll(t) <==> |s| == |t| && forall k :: 0 <= k < |s| ==> SameLetter(s[k], t[k])
  {
    hide SameLetter;
    forall k | 0 <= k < |s| && k < |t| ensures LowerAll(s)[k] == LowerAll(t)[k] <==> SameLetter(s[k], t[k]) {
      LettersInAnyCase(s[k], t[k]);
    }
  }

  lemma LettersInAnyCase(c: byte, d: byte)
    ensures Lower(c) == Lower(d) <==> SameLetter(c, d)
  {
    var lower, upper := "abcdefghijklmnopqrstuvwxyz", "ABCDEFGHIJKLMNOPQRSTUVWXYZ";
    forall k | 0 <= k < 26 ensures lower[k] as int == 97 + k && upper[k] as int == 65 + k {
    }
    if Lower(c) == Lower(d) && c != d {
      var k := Lower(c) - 97;
      assert {c as char, d as char} == {lower[k], upper[k]};
    }
  }

  /** The one header the parser looks for itself, in any mixture of cases. */
  lemma LengthInAnyCase(t: seq<byte>)
    ensures LowerAll(t) == CONTENT_LENGTH <==>
      |t| == 14 && forall k :: 0 <= k < 14 ==> t[k] as char == "content-length"[k] || t[k] as char == "CONTENT-LENGTH"[k]
  {
    if |t| == 14 {
      hide LowerAll;
      forall k | 0 <= k < 14
        ensures LowerAll(t)[k] == CONTENT_LENGTH[k] <==>
          t[k] as char == "content-length"[k] || t[k] as char == "CONTENT-LENGTH"[k]
      {
        OneInAnyCase(t[k], k);
      }
      assert LowerAll(t) == CONTENT_LENGTH <==> forall k :: 0 <= k < 14 ==> LowerAll(t)[k] == CONTENT_LENGTH[k];
    }
  }

  lemma OneInAnyCase(c: byte, k: nat)
    requires k < 14
    ensures Lower(c) == CONTENT_LENGTH[k] <==> c as char == "content-length"[k] || c as char == "CONTENT-LENGTH"[k]
  {
  }

  /** The number the first Content-Length field reads as, if any. */
  function Announced(fields: seq<Field>, env: Env): Option<int> {
    var f := FindField(fields, CONTENT_LENGTH);
    if f.None? then None else env.toLong(f.value.value)
  }

  /** How many bytes of body are taken for it: none without one or below 1, at most 128 MB. */
  function Taken(announced: Option<int>): nat {
    if announced.None? || announced.value <= 0 then 0
    else if announced.value <= 128 * 1024 * 1024 then announced.value
    else 128 * 1024 * 1024
  }

  lemma {:induction false} HeadersEnd(r: Request, fields: seq<Field>, env: Env)
    requires Sane(r) && r.phase == AfterCRLF && ShowsAll(r.accepted, r.pool, fields) && GoodFields(fields)
    ensures var n := Announced(fields, env);
      Feed(r, EOL, env) ==
      if n.None? then r.(phase := Done) else r.(phase := InBody, body := Body(Taken(n) > 0, Taken(n), []))
  {
    hide Feed, ShowsAll, GoodFields;
    var s := r.(phase := AfterCRLFCR);
    assert Step(r, CR, env) == s && Step(s, LF, env) == EndOfHeaders(s, env);
    AnnouncedEnds(s, fields, env);
    hide Step, Sane, EndOfHeaders;
    assert EOL == [CR] + [LF];
    FeedConcat(r, [CR], [LF], env);
    FeedOne(r, CR, env);
    FeedOne(s, LF, env);
  }

  lemma AnnouncedEnds(r: Request, fields: seq<Field>, env: Env)
    requires Sane(r) && ShowsAll(r.accepted, r.pool, fields) && GoodFields(fields)
    ensures var n := Announced(fields, env);
      EndOfHeaders(r, env) ==
      if n.None? then r.(phase := Done) else r.(phase := InBody, body := Body(Taken(n) > 0, Taken(n), []))
  {
    hide Sane, Reads, CString, ShowsAll, GoodFields;
    assert fields[0..] == fields;
    FindsField(r, fields, 0, CONTENT_LENGTH);
    var f := FindField(fields, CONTENT_LENGTH);
    if f.Some? {
      ReadsAsCString(FindHeader(r, 0, CONTENT_LENGTH).value.value, r.pool, f.value.value);
    }
  }

  lemma {:induction false} BodyFeeds(r: Request, t: seq<byte>, env: Env)
    requires Sane(r) && r.phase == InBody && 0 < |t| && |r.body.bytes| + |t| == r.body.capacity
    ensures Feed(r, t, env) == r.(body := r.body.(bytes := r.body.bytes + t), phase := Done)
    decreases |t|
  {
    var s := Step(r, t[0], env);
    if |t| > 1 {
      BodyFeeds(s, t[1..], env);
      assert r.body.bytes + t == (r.body.bytes + [t[0]]) + t[1..];
    } else {
      FeedNothing(s, env);
      assert t == [t[0]];
    }
  }

  // ---------- the whole request ----------

  /** As many fields as there are headers for. */
  function First64(fields: seq<Field>): seq<Field> {
    if |fields| <= 64 then fields else fields[..64]
  }

  /** The request is well formed: its line and its fields can be told apart, those fields there
      are headers for fit the pool, and its body has the length they announce. */
  predicate Good(m: Message, env: Env) {
    && GoodLine(m) && GoodFields(m.fields) && AfterFields(0, First64(m.fields)) <= 8190
    && |m.body| == Taken(Announced(First64(m.fields), env))
  }

  /** The parser's state is the message, as far as it has room for its line and 64 headers, with
      a warning for each part cut off and no other. It is done, unless the message announces a
      body of no length: then it waits for one byte more. */
  predicate Arrived(r: Request, m: Message, env: Env) {
    && r.verb == Fit(m.verb, 63) && r.path == Fit(m.path, 1023) && r.version == Fit(m.version, 15)
    && r.decoded == Unescape(CString(Fit(m.path, 1023).kept), env.hex)
    && ShowsAll(r.accepted, r.pool, First64(m.fields)) && !r.pool.exhausted && r.tooMany == (|m.fields| > 64)
    && r.body.bytes == m.body && r.body.capacity == |m.body| && !r.bodyTruncated
    && var n := Announced(First64(m.fields), env);
    r.phase == if n.Some? && n.value <= 0 then InBody else Done
  }

  /** A well-formed request is parsed back to itself. */
  lemma {:induction false} RequestArrives(m: Message, env: Env)
    requires Good(m, env)
    ensures Sane(Fresh()) && Arrived(Feed(Fresh(), Printed(m), env), m, env)
  {
    hide Feed, Sane, ShowsAll, GoodFields, Announced, Unescape, RequestLine, FieldLines, Fresh, Fit;
    var start, lined := Fresh(), WithLine(m, env);
    LineArrives(m, env);
    FreshHas();
    var fields := First64(m.fields);
    var fielded := FieldsTaken(lined, m.fields, env);
    HeadersEnd(fielded, fields, env);
    var ended := Feed(fielded, EOL, env);
    FeedConcat(start, RequestLine(m) + FieldLines(m.fields) + EOL, m.body, env);
    FeedConcat(start, RequestLine(m) + FieldLines(m.fields), EOL, env);
    FeedConcat(start, RequestLine(m), FieldLines(m.fields), env);
    assert Feed(start, Printed(m), env) == Feed(ended, m.body, env);
    if |m.body| == 0 {
      FeedNothing(ended, env);
    } else {
      BodyFeeds(ended, m.body, env);
    }
  }

  /** Any number of fields: the first 64 become headers, the others a warning. */
  lemma {:induction false} FieldsTaken(r: Request, fields: seq<Field>, env: Env) returns (s: Request)
    requires Sane(r) && r.phase == AfterCRLF && r.current == BLANK && r.accepted == []
    requires !r.pool.exhausted && r.pool.offset == 0 && !r.tooMany
    requires GoodFields(fields) && AfterFields(0, First64(fields)) <= POOL_LIMIT
    ensures s == Feed(r, FieldLines(fields), env) && GoodFields(First64(fields))
    ensures ShowsAll(s.accepted, s.pool, First64(fields)) && !s.pool.exhausted
    ensures s == r.(accepted := s.accepted, pool := s.pool, tooMany := |fields| > 64)
  {
    hide Feed, WithFields, Sane, GoodField, GoodFields, FieldLines, First64, ShowsAll, HeaderOrEat, AfterFields;
    Split64(fields);
    var first := First64(fields);
    var others := fields[|first|..];
    FieldLinesJoin(first, others);
    FieldsArrive(r, first, env);
    NothingShown(r);
    WithFieldsShows(r, first, []);
    assert [] + first == first;
    FeedConcat(r, FieldLines(first), FieldLines(others), env);
    s := WithFields(r, first);
    ShownCount(s, first);
    if |fields| > 64 {
      FullEats(s);
      LinesEaten(s, others, env);
      s := HeaderOrEat(s).(phase := AfterCRLF);
    } else {
      NoLines(others);
      FeedNothing(s, env);
    }
  }

  lemma Split64(fields: seq<Field>)
    ensures var n := |First64(fields)|;
      && n <= 64 && n <= |fields| && fields == First64(fields) + fields[n..]
      && (if |fields| > 64 then n == 64 else fields[n..] == [])
      && (GoodFields(fields) ==> GoodFields(First64(fields)) && GoodFields(fields[n..]))
  {
    hide GoodField;
  }

  lemma ShownCount(r: Request, fields: seq<Field>)
    requires ShowsAll(r.accepted, r.pool, fields)
    ensures |r.accepted| == |fields|
  {
  }

  lemma FullEats(r: Request)
    requires Sane(r) && r.phase == AfterCRLF && |r.accepted| == 64
    ensures HeaderOrEat(r) == r.(phase := EatHeaders, tooMany := true)
  {
  }

  lemma NoLines(fields: seq<Field>)
    ensures |fields| == 0 ==> FieldLines(fields) == []
  {
  }

  lemma FreshHas()
    ensures var r := Fresh();
      r.current == BLANK && !r.pool.exhausted && r.pool.offset == 0 && r.accepted == [] && !r.tooMany
      && r.body == Body(false, 0, []) && !r.bodyTruncated && PoolOk(r.pool)
  {
  }

  lemma NothingShown(r: Request)
    requires r.accepted == []
    ensures ShowsAll(r.accepted, r.pool, []) && GoodFields([])
  {
  }

  /** In whatever fragments it comes. */
  lemma {:induction false} FragmentsArrive(m: Message, fragments: seq<seq<byte>>, env: Env)
    requires Good(m, env) && Concat(fragments) == Printed(m)
    ensures Sane(Fresh()) && Arrived(FeedAll(Fresh(), fragments, env), m, env)
  {
    hide Good, Arrived, Feed, FeedAll, Sane, Printed;
    FreshIsSane();
    FragmentsDoNotMatter(Fresh(), fragments, env);
    RequestArrives(m, env);
  }

  /** A request that announces a body of length 0 is not done when it has come whole; any one
      byte after it ends it, and is dropped. */
  lemma {:induction false} EmptyBodyWaits(m: Message, next: byte, env: Env)
    requires Good(m, env) && Announced(First64(m.fields), env).Some? && Announced(First64(m.fields), env).value <= 0
    ensures Sane(Fresh())
    ensures var r := Feed(Fresh(), Printed(m), env);
      r.phase == InBody && Feed(Fresh(), Printed(m) + [next], env) == r.(phase := Done)
  {
    hide Feed, Sane, Good, ShowsAll, Announced, Printed, Unescape;
    RequestArrives(m, env);
    FeedConcat(Fresh(), Printed(m), [next], env);
    var r := Feed(Fresh(), Printed(m), env);
    FeedOne(r, next, env);
  }

  /** There are such requests: every request line fits with one Content-Length that reads as 0 or less. */
  lemma ZeroLengthIsGood(m: Message, zero: seq<byte>, env: Env)
    requires GoodLine(m) && m.fields == [Field(CONTENT_LENGTH, zero)] && m.body == []
    requires GoodValue(zero) && AfterFields(0, m.fields) <= 8190 && env.toLong(zero).Some? && env.toLong(zero).value <= 0
    ensures Good(m, env) && Announced(m.fields, env) == env.toLong(zero)
  {
    hide GoodLine, GoodFields, AfterFields, Announced;
    assert First64(m.fields) == m.fields;
    OnlyLength(m.fields, zero, env);
  }

  lemma {:induction false} OnlyLength(fields: seq<Field>, zero: seq<byte>, env: Env)
    requires fields == [Field(CONTENT_LENGTH, zero)] && GoodValue(zero)
    ensures GoodFields(fields) && Announced(fields, env) == env.toLong(zero)
  {
    hide LowerAll;
    assert fields[1..] == [];
    LengthIsLower();
    assert FindField(fields, CONTENT_LENGTH) == Some(fields[0]);
    assert GoodField(fields[0]);
  }

  lemma LengthIsLower()
    ensures LowerAll(CONTENT_LENGTH) == CONTENT_LENGTH
  {
  }

  /** A name escaped into the path of a request is what the parser decodes from it. */
  lemma {:induction false} EscapedPathArrives(m: Message, name: seq<byte>, env: Env)
    requires Good(m, env) && m.path == Escape(name) && |m.path| <= 1023 && ReadsHex(env.hex)
    ensures Sane(Fresh()) && Feed(Fresh(), Printed(m), env).decoded == name
  {
    hide Feed, Sane, Good, ShowsAll, Announced, Printed;
    RequestArrives(m, env);
    EscapeIsPlain(name);
    CutNothing(m.path, 0);
    UnescapeEscape(name, env.hex);
  }
}
