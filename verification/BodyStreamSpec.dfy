/**
 A response body stream as a value: what the network still holds, what has been received, and, for a stream that also
 writes the body to a temporary file for the cache, what that file contains.
 */
module BodyStreamSpec {
  import opened Options

  type Bytes = seq<bv8>

  const SSIZE_MAX: nat := 0x7FFF_FFFF_FFFF_FFFF

  /** The network stream. `eof` is set by a read that gets fewer bytes than it asked for; a failed read is for good. */
  datatype Content = Content(rest: Bytes, eof: bool, bad: bool)

  /** `file` is the temporary file, once there is one, and `written` the size recorded for it. */
  datatype Stream = Stream(content: Content, closed: bool, caching: bool, file: Option<Bytes>, written: nat,
                           received: Bytes)

  /**
   One call of read, and what the environment does during it: whether the network works, whether a temporary file can
   be created, and how many of the bytes the file takes.
   */
  datatype Try = Try(buffer: bool, n: nat, works: bool, made: bool, takes: nat)

  datatype Error = IllegalState | IllegalArgument | Execution

  datatype Reply = Got(bytes: Bytes) | End | Fail(error: Error)

  function Fresh(content: Bytes, caching: bool): Stream {
    Stream(Content(content, false, false), false, caching, None, 0, [])
  }

  function FileBytes(s: Stream): Bytes {
    if s.file.Some? then s.file.value else []
  }

  function Taken(rest: Bytes, n: nat): Bytes {
    if n <= |rest| then rest[..n] else rest
  }

  function Drained(c: Content, n: nat): Content {
    Content(c.rest[|Taken(c.rest, n)|..], |c.rest| < n, false)
  }

  /** What a write adds to the file: nothing once a write has fallen short, which is noticed by nobody. */
  function Stored(s: Stream, got: Bytes, takes: nat): Bytes {
    if |FileBytes(s)| < s.written then [] else Taken(got, takes)
  }

  /** What a successful read does with its bytes. All of them count as written, whatever became of the write. */
  function Record(s: Stream, got: Bytes, made: bool, takes: nat): Stream {
    if !s.caching || (s.file.None? && !made) then s.(received := s.received + got)
    else
      s.(received := s.received + got, written := s.written + |got|,
         file := Some(FileBytes(s) + Stored(s, got, takes)))
  }

  function Read(s: Stream, t: Try): (Stream, Reply) {
    if s.closed then (s, Fail(IllegalState))
    else if !t.buffer || t.n > SSIZE_MAX then (s, Fail(IllegalArgument))
    else if s.content.eof then (s, End)
    else if s.content.bad || !t.works then (s.(content := s.content.(bad := true)), Fail(Execution))
    else
      var got := Taken(s.content.rest, t.n);
      (Record(s, got, t.made, t.takes).(content := Drained(s.content, t.n)), Got(got))
  }

  function Run(s: Stream, tries: seq<Try>): Stream
    decreases |tries|
  {
    if tries == [] then s else Run(Read(s, tries[0]).0, tries[1..])
  }

  /** A length of -1 is as good as none. */
  predicate Declared(length: Option<int>) {
    length.Some? && length.value != -1
  }

  /** Whether a body may go to the cache: the size written is the declared length or, without one, the end was seen. */
  predicate Offers(s: Stream, length: Option<int>) {
    if Declared(length) then length.value == s.written else s.content.eof
  }

  // ---- reads put together ----

  /** What a user reads and what closing skips are one sequence of reads. */
  lemma {:induction false} RunOn(s: Stream, first: seq<Try>, second: seq<Try>)
    ensures Run(Run(s, first), second) == Run(s, first + second)
    decreases |first|
  {
    if first == [] {
      assert first + second == second;
    } else {
      assert (first + second)[1..] == first[1..] + second;
      RunOn(Read(s, first[0]).0, first[1..], second);
    }
  }

  lemma RunSnoc(s: Stream, tries: seq<Try>, t: Try)
    ensures Run(s, tries + [t]) == Read(Run(s, tries), t).0
  {
    var last := Run(s, tries);
    RunOn(s, tries, [t]);
    assert Run(last, [t]) == Run(Read(last, t).0, []);
  }

  // ---- what the file is ----

  /**
   The file holds bytes received in a row, beginning where the last `written` ones begin, and all of those unless a
   write fell short.
   */
  ghost predicate SoundFile(s: Stream) {
    Sizes(s) && Begins(FileBytes(s), s.received[|s.received| - s.written..])
  }

  predicate Sizes(s: Stream) {
    && |FileBytes(s)| <= s.written <= |s.received|
    && (s.file.None? ==> s.written == 0)
    && (s.file.Some? ==> s.caching)
  }

  /** Moreover the end is seen only when nothing is left. */
  ghost predicate Sound(s: Stream) {
    SoundFile(s) && (s.content.eof ==> s.content.rest == [])
  }

  predicate Begins(a: Bytes, b: Bytes) {
    |a| <= |b| && a == b[..|a|]
  }

  lemma BeginsMore(a: Bytes, b: Bytes, more: Bytes, got: Bytes)
    requires Begins(a, b) && Begins(more, got) && (|a| == |b| || more == [])
    ensures Begins(a + more, b + got)
  {
    if |a| == |b| {
      assert a == b;
      assert (b + got)[..|a + more|] == b + got[..|more|];
    } else {
      assert a + more == a && (b + got)[..|a|] == b[..|a|];
    }
  }

  lemma RecordSound(s: Stream, got: Bytes, made: bool, takes: nat)
    requires SoundFile(s)
    ensures SoundFile(Record(s, got, made, takes))
    ensures Record(s, got, made, takes).received == s.received + got
  {
    var k := |s.received| - s.written;
    if s.caching && (s.file.Some? || made) {
      assert (s.received + got)[k..] == s.received[k..] + got;
      BeginsMore(FileBytes(s), s.received[k..], Stored(s, got, takes), got);
    } else if s.file.None? {
      assert (s.received + got)[|s.received + got|..] == [];
    }
  }

  lemma OtherContent(s: Stream, c: Content)
    requires SoundFile(s)
    ensures SoundFile(s.(content := c)) && s.(content := c).received == s.received
  {
  }

  lemma ReadSound(s: Stream, t: Try)
    requires Sound(s)
    ensures var s' := Read(s, t).0;
            Sound(s') && s'.received + s'.content.rest == s.received + s.content.rest
  {
    var reply := Read(s, t).1;
    if reply.Got? {
      var got := reply.bytes;
      var recorded := Record(s, got, t.made, t.takes);
      RecordSound(s, got, t.made, t.takes);
      OtherContent(recorded, Drained(s.content, t.n));
      Split(s.received, s.content.rest, t.n);
    } else {
      OtherContent(s, s.content.(bad := true));
    }
  }

  lemma Split(received: Bytes, rest: Bytes, n: nat)
    ensures (received + Taken(rest, n)) + rest[|Taken(rest, n)|..] == received + rest
  {
  }

  /** Between network and reader no byte is lost, made up or reordered, and the file follows what was received. */
  lemma {:induction false} RunSound(s: Stream, tries: seq<Try>)
    requires Sound(s)
    ensures var s' := Run(s, tries);
            Sound(s') && s'.received + s'.content.rest == s.received + s.content.rest
    decreases |tries|
  {
    if tries != [] {
      ReadSound(s, tries[0]);
      RunSound(Read(s, tries[0]).0, tries[1..]);
    }
  }

  // ---- when the file is everything ----

  /** The file, or nothing where there is none, is all that was received. */
  predicate Whole(s: Stream) {
    FileBytes(s) == s.received
  }

  lemma FullIsWhole(s: Stream)
    requires SoundFile(s) && Full(s)
    ensures Whole(s) && s.written == |s.received|
  {
    BeginsWhole(FileBytes(s), s.received, s.written);
  }

  lemma BeginsWhole(a: Bytes, b: Bytes, n: nat)
    requires n == |b| == |a| && Begins(a, b[|b| - n..])
    ensures a == b
  {
    assert b[0..] == b && b[..|b|] == b;
  }

  /** A read keeps what it brings: if it brings bytes, there is a file by then that takes all of them. */
  predicate Keeps(s: Stream, t: Try) {
    var reply := Read(s, t).1;
    reply.Got? && reply.bytes != [] ==> (s.file.Some? || t.made) && |reply.bytes| <= t.takes
  }

  predicate Kept(s: Stream, tries: seq<Try>)
    decreases |tries|
  {
    tries == [] || (Keeps(s, tries[0]) && Kept(Read(s, tries[0]).0, tries[1..]))
  }

  /** The same by size. */
  predicate Full(s: Stream) {
    |FileBytes(s)| == |s.received|
  }

  lemma RecordSize(s: Stream, got: Bytes, made: bool, takes: nat)
    requires Sizes(s) && s.caching
    ensures var s' := Record(s, got, made, takes);
            && Sizes(s') && s'.caching
            && (!Full(s) ==> !Full(s'))
            && (Full(s) ==> (Full(s') <==> got == [] || ((s.file.Some? || made) && |got| <= takes)))
  {
  }

  lemma ReadFull(s: Stream, t: Try)
    requires Sizes(s) && s.caching
    ensures var s' := Read(s, t).0;
            Sizes(s') && s'.caching && (Full(s') <==> Full(s) && Keeps(s, t))
  {
    var reply := Read(s, t).1;
    if reply.Got? {
      RecordSize(s, reply.bytes, t.made, t.takes);
    }
  }

  lemma {:induction false} FullIffKept(s: Stream, tries: seq<Try>)
    requires Sizes(s) && s.caching
    ensures Full(Run(s, tries)) <==> Full(s) && Kept(s, tries)
    decreases |tries|
  {
    if tries != [] {
      ReadFull(s, tries[0]);
      FullIffKept(Read(s, tries[0]).0, tries[1..]);
    }
  }

  /** For any reads, the file is the full sequence of bytes received exactly when every one of them kept its bytes. */
  lemma WholeIffKept(s: Stream, tries: seq<Try>)
    requires Sound(s) && s.caching && Whole(s)
    ensures Whole(Run(s, tries)) <==> Kept(s, tries)
  {
    RunSound(s, tries);
    FullIffKept(s, tries);
    var end := Run(s, tries);
    if Full(end) {
      FullIsWhole(end);
    }
  }

  // ---- what the cache is offered ----

  lemma RunFresh(body: Bytes, tries: seq<Try>)
    ensures var s := Run(Fresh(body, true), tries);
            && s.received + s.content.rest == body
            && (s.content.eof || |s.received| == |body| ==> s.received == body)
            && s.written <= |s.received| <= |body|
            && (Whole(s) ==> s.written == |s.received|)
            && (Whole(s) <==> Kept(Fresh(body, true), tries))
  {
    var s := Run(Fresh(body, true), tries);
    RunSound(Fresh(body, true), tries);
    WholeIffKept(Fresh(body, true), tries);
    if Full(s) {
      FullIsWhole(s);
    }
    AllReceived(s.received, s.content.rest);
  }

  lemma AllReceived(received: Bytes, rest: Bytes)
    ensures [] + (received + rest) == received + rest
    ensures rest == [] || |received| == |received + rest| ==> received == received + rest
  {
  }

  /**
   With a declared length, whatever the network sends: the file of an offered body has the declared size on record, and
   is all that was received exactly when every read kept its bytes; such a body is offered exactly when as many bytes
   came as were declared. If no more than that was to come, every offered body was received completely.
   */
  lemma OfferWithLength(body: Bytes, tries: seq<Try>, length: int)
    requires length != -1
    ensures var s := Run(Fresh(body, true), tries);
            && (Offers(s, Some(length)) ==> s.written == length && (Whole(s) <==> Kept(Fresh(body, true), tries)))
            && (Offers(s, Some(length)) && Whole(s) <==> Kept(Fresh(body, true), tries) && |s.received| == length)
            && (Offers(s, Some(length)) && |body| <= length ==>
                  s.received == body && |body| == length && (FileBytes(s) == body <==> Kept(Fresh(body, true), tries)))
  {
    RunFresh(body, tries);
  }

  /**
   Without a declared length an offered body was received to its end, and its file is the body exactly when every read
   kept its bytes.
   */
  lemma OfferWithoutLength(body: Bytes, tries: seq<Try>)
    ensures var s := Run(Fresh(body, true), tries);
            Offers(s, None) ==> s.received == body && (FileBytes(s) == body <==> Kept(Fresh(body, true), tries))
  {
    RunFresh(body, tries);
  }

  /** The reads of the user followed by those of closing the stream. */
  lemma OfferAfterClose(body: Bytes, user: seq<Try>, skipped: seq<Try>, length: Option<int>)
    ensures var s := Run(Run(Fresh(body, true), user), skipped);
            && s == Run(Fresh(body, true), user + skipped)
            && (Offers(s, length) && Whole(s) <==>
                  && Kept(Fresh(body, true), user + skipped)
                  && if Declared(length) then |s.received| == length.value else s.content.eof)
            && (Offers(s, length) && !Declared(length) ==> s.received == body)
  {
    RunOn(Fresh(body, true), user, skipped);
    RunFresh(body, user + skipped);
    if Declared(length) {
      OfferWithLength(body, user + skipped, length.value);
    } else {
      OfferWithoutLength(body, user + skipped);
    }
  }

  /**
   A temporary file that can only be created after the first `k` bytes makes the cache get a body without them: when no
   length is declared, and also when a length is declared that the body exceeds by just these bytes.
   */
  lemma LateFileIsOffered(body: Bytes, k: nat)
    requires 0 < k < |body| < SSIZE_MAX
    ensures var tries := [Try(true, k, true, false, k), Try(true, |body|, true, true, |body|)];
            var s := Run(Fresh(body, true), tries);
            && s.received == body && s.file == Some(body[k..]) && s.written == |body| - k
            && Offers(s, None) && Offers(s, Some(|body| - k))
  {
    var a, b := Try(true, k, true, false, k), Try(true, |body|, true, true, |body|);
    var s1 := Stream(Content(body[k..], false, false), false, true, None, 0, body[..k]);
    var s2 := Stream(Content([], true, false), false, true, Some(body[k..]), |body| - k, body);
    Joins(body, k);
    assert Read(Fresh(body, true), a).0 == s1 && Read(s1, b).0 == s2;
    RunTwo(Fresh(body, true), a, b);
  }

  lemma Joins(body: Bytes, k: nat)
    requires k <= |body|
    ensures [] + body == body && [] + body[..k] == body[..k] && [] + body[k..] == body[k..]
    ensures body[..k] + body[k..] == body
  {
  }

  lemma RunTwo(s: Stream, a: Try, b: Try)
    ensures Run(s, [a, b]) == Read(Read(s, a).0, b).0 && Run(s, [a]) == Read(s, a).0
  {
    RunSnoc(s, [a], b);
    RunSnoc(s, [], a);
    assert [a] + [b] == [a, b] && [] + [a] == [a];
  }

  /** A write that falls short goes unnoticed: the cache gets the beginning of the body with the size of all of it. */
  lemma ShortWriteIsOffered(body: Bytes, k: nat, length: Option<int>)
    requires k < |body| < SSIZE_MAX && (Declared(length) ==> length.value == |body|)
    ensures var tries := [Try(true, |body| + 1, true, true, k)];
            var s := Run(Fresh(body, true), tries);
            s.received == body && s.file == Some(body[..k]) && s.written == |body| && Offers(s, length)
  {
    var t := Try(true, |body| + 1, true, true, k);
    Joins(body, k);
    RunTwo(Fresh(body, true), t, t);
  }
}
