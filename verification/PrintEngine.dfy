/**
 The print engine of gnu-efi: characters go through a buffer of 200 to an output worker, which
 appends to a string of fixed size (`_SPrint`) or to one that grows in the pool (`_PoolPrint`).
 */
module PrintEngine {
  import opened WideStrings
  import opened Words

  const NEWLINE: CHAR16 := 10
  const RETURN: CHAR16 := 13
  const PRINT_STRING_LEN := 200

  type CHAR8 = x: int | 0 <= x < 0x100

  /** A format or an item in memory: characters of 16 bits, or of 8. */
  datatype Text = Wide(pw: seq<CHAR16>) | Ascii(pc: seq<CHAR8>)

  /** The characters that `PGETC` returns, one after the other. */
  function Chars(p: Text): seq<CHAR16>
  {
    match p
    case Wide(pw) => pw
    case Ascii(pc) => seq(|pc|, i requires 0 <= i < |pc| => pc[i])
  }

  method PGETC(p: Text, index: nat) returns (c: CHAR16)
    requires index < |Chars(p)|
    ensures c == Chars(p)[index]
  {
    c := if p.Ascii? then p.pc[index] else p.pw[index];
  }

  // The stream of characters, without a buffer.

  /** The stream for `s`: a carriage return goes before each newline. */
  function Expand(s: seq<CHAR16>): seq<CHAR16>
  {
    if s == [] then []
    else (if s[0] == NEWLINE then [RETURN, NEWLINE] else [s[0]]) + Expand(s[1..])
  }

  lemma {:induction false} ExpandConcat(s: seq<CHAR16>, t: seq<CHAR16>)
    ensures Expand(s + t) == Expand(s) + Expand(t)
  {
    if s == [] {
      assert s + t == t;
    } else {
      assert (s + t)[1..] == s[1..] + t;
      ExpandConcat(s[1..], t);
    }
  }

  /** In the stream every newline follows a carriage return. */
  lemma {:induction false} ExpandReturns(s: seq<CHAR16>)
    ensures forall k :: 0 <= k < |Expand(s)| && Expand(s)[k] == 10 ==> k > 0 && Expand(s)[k - 1] == 13
    ensures s != [] ==> Expand(s) != [] && Expand(s)[0] != 10
  {
    if s != [] {
      ExpandReturns(s[1..]);
      var t := Expand(s[1..]);
      if s[0] == NEWLINE {
        assert Expand(s) == [RETURN, NEWLINE] + t;
      } else {
        assert Expand(s) == [s[0]] + t;
      }
    }
  }

  /** The stream without the carriage returns right before its newlines. */
  function WithoutReturns(t: seq<CHAR16>): seq<CHAR16>
  {
    if t == [] then []
    else if |t| > 1 && t[0] == 13 && t[1] == 10 then [10] + WithoutReturns(t[2..])
    else [t[0]] + WithoutReturns(t[1..])
  }

  /** Taking those out again gives back the text. */
  lemma {:induction false} ExpandUndone(s: seq<CHAR16>)
    ensures WithoutReturns(Expand(s)) == s
  {
    if s != [] {
      var t := Expand(s[1..]);
      ExpandUndone(s[1..]);
      ExpandReturns(s[1..]);
      if s[0] == NEWLINE {
        assert Expand(s) == [13, 10] + t && Expand(s)[2..] == t;
      } else {
        assert Expand(s) == [s[0]] + t && Expand(s)[1..] == t;
      }
      assert s == [s[0]] + s[1..];
    }
  }

  // The buffer as a value: what is pending in it and the texts flushed so far.

  datatype Engine = Engine(pending: seq<CHAR16>, chunks: seq<seq<CHAR16>>, len: nat)

  /** What a worker sees of a buffer: the text before the first NUL. */
  function UpToNul(s: seq<CHAR16>): (t: seq<CHAR16>)
    ensures |t| <= |s| && t == s[..|t|] && (|t| < |s| ==> s[|t|] == 0) && 0 !in t
  {
    if s == [] || s[0] == 0 then [] else [s[0]] + UpToNul(s[1..])
  }

  function Flush(e: Engine): Engine
  {
    Engine([], e.chunks + [UpToNul(e.pending)], e.len)
  }

  /** Stores a character, and flushes at the end of the buffer. */
  function Store(e: Engine, c: CHAR16): Engine
  {
    var f := Engine(e.pending + [c], e.chunks, e.len + 1);
    if |f.pending| >= PRINT_STRING_LEN - 1 then Flush(f) else f
  }

  function Put(e: Engine, c: CHAR16): Engine
  {
    if c == NEWLINE then Store(Store(e, RETURN), NEWLINE) else Store(e, c)
  }

  function PutAll(e: Engine, s: seq<CHAR16>): Engine
  {
    if s == [] then e else Put(PutAll(e, s[..|s| - 1]), s[|s| - 1])
  }

  function Concat(chunks: seq<seq<CHAR16>>): seq<CHAR16>
  {
    if chunks == [] then [] else Concat(chunks[..|chunks| - 1]) + chunks[|chunks| - 1]
  }

  /** Everything printed so far. */
  function Stream(e: Engine): seq<CHAR16> { Concat(e.chunks) + e.pending }

  /** The position is in bounds and no NUL is pending. */
  predicate Sound(e: Engine) { |e.pending| < PRINT_STRING_LEN - 1 && 0 !in e.pending }

  lemma UpToNulAll(s: seq<CHAR16>)
    requires 0 !in s
    ensures UpToNul(s) == s
  {
    assert forall k :: 0 <= k < |s| ==> s[k] in s;
  }

  lemma FlushStream(e: Engine)
    requires 0 !in e.pending
    ensures Sound(Flush(e)) && Stream(Flush(e)) == Stream(e)
  {
    UpToNulAll(e.pending);
    assert Flush(e).chunks[..|e.chunks|] == e.chunks;
  }

  lemma StoreStream(e: Engine, c: CHAR16)
    requires Sound(e) && c != 0
    ensures Sound(Store(e, c)) && Stream(Store(e, c)) == Stream(e) + [c] && Store(e, c).len == e.len + 1
  {
    FlushStream(Engine(e.pending + [c], e.chunks, e.len + 1));
  }

  lemma PutStream(e: Engine, c: CHAR16)
    requires Sound(e) && c != 0
    ensures Sound(Put(e, c)) && Stream(Put(e, c)) == Stream(e) + Expand([c])
    ensures Put(e, c).len == e.len + |Expand([c])|
  {
    hide Store;
    if c == NEWLINE {
      StoreStream(e, RETURN);
      StoreStream(Store(e, RETURN), NEWLINE);
      assert Expand([c]) == [RETURN] + [NEWLINE];
    } else {
      StoreStream(e, c);
      assert Expand([c]) == [c];
    }
  }

  /** Buffered printing is the unbuffered stream: nothing is lost or reordered, and the length counts it. */
  lemma {:induction false} PutAllStream(e: Engine, s: seq<CHAR16>)
    requires Sound(e) && 0 !in s
    ensures Sound(PutAll(e, s)) && Stream(PutAll(e, s)) == Stream(e) + Expand(s)
    ensures PutAll(e, s).len == e.len + |Expand(s)|
  {
    hide Put, Sound, Stream;
    if s != [] {
      var front, c := s[..|s| - 1], s[|s| - 1];
      PutAllStream(e, front);
      PutStream(PutAll(e, front), c);
      assert s == front + [c];
      ExpandConcat(front, [c]);
      assert Stream(e) + Expand(front) + Expand([c]) == Stream(e) + (Expand(front) + Expand([c]));
    } else {
      assert Stream(e) + [] == Stream(e);
    }
  }

  // The workers as functions on the string they append to.

  datatype Target = Target(text: seq<CHAR16>, maxlen: nat)

  /** `_SPrint`: what does not fit is cut off. */
  function Append(v: Target, t: seq<CHAR16>): Target
    requires |v.text| <= v.maxlen
  {
    Target(v.text + if |v.text| + |t| > v.maxlen then t[..v.maxlen - |v.text|] else t, v.maxlen)
  }

  /** `_PoolPrint`: grows the string by the text and 200 more if it is short; a refusal empties it. */
  function GrowAppend(v: Target, t: seq<CHAR16>, limit: nat): Target
    requires |v.text| <= v.maxlen
  {
    var newlen := |v.text| + |t| + 1;
    if newlen <= v.maxlen then Append(v, t)
    else if newlen + PRINT_STRING_LEN <= limit then Append(v.(maxlen := newlen + PRINT_STRING_LEN), t)
    else Append(Target([], 0), t)
  }

  function Worker(grows: bool, v: Target, t: seq<CHAR16>, limit: nat): (w: Target)
    requires |v.text| <= v.maxlen
    ensures |w.text| <= w.maxlen
  {
    if grows then GrowAppend(v, t, limit) else Append(v, t)
  }

  /** The string after a list of flushes. */
  function Received(grows: bool, v: Target, chunks: seq<seq<CHAR16>>, limit: nat): (w: Target)
    requires |v.text| <= v.maxlen
    ensures |w.text| <= w.maxlen
  {
    if chunks == [] then v
    else Worker(grows, Received(grows, v, chunks[..|chunks| - 1], limit), chunks[|chunks| - 1], limit)
  }

  lemma ReceivedMore(grows: bool, v: Target, chunks: seq<seq<CHAR16>>, t: seq<CHAR16>, limit: nat)
    requires |v.text| <= v.maxlen
    ensures Received(grows, v, chunks + [t], limit) == Worker(grows, Received(grows, v, chunks, limit), t, limit)
  {
    assert (chunks + [t])[..|chunks|] == chunks;
  }

  function Cut(s: seq<CHAR16>, n: nat): seq<CHAR16> { if |s| <= n then s else s[..n] }

  /** A fixed string holds the stream up to its size, however the flushes divided it. */
  lemma {:induction false} FixedReceives(v: Target, chunks: seq<seq<CHAR16>>, limit: nat)
    requires |v.text| <= v.maxlen
    ensures Received(false, v, chunks, limit) == Target(Cut(v.text + Concat(chunks), v.maxlen), v.maxlen)
  {
    if chunks != [] {
      var front, t := chunks[..|chunks| - 1], chunks[|chunks| - 1];
      FixedReceives(v, front, limit);
      assert v.text + (Concat(front) + t) == (v.text + Concat(front)) + t;
    }
  }

  /** A text is added exactly if it fits or the pool grants the growth; else the whole string is lost. */
  lemma GrowthNeeded(v: Target, t: seq<CHAR16>, limit: nat)
    requires |v.text| <= v.maxlen
    ensures var newlen := |v.text| + |t| + 1;
      var w := GrowAppend(v, t, limit);
      if newlen <= v.maxlen || newlen + 200 <= limit then
        w == Target(v.text + t, if newlen <= v.maxlen then v.maxlen else newlen + 200)
        && |w.text| < w.maxlen
      else w == Target([], 0) && (v.text + t != [] ==> w.text != v.text + t)
  {
  }

  /** What a growing string needs for its own text, that of the flushes and the NUL. */
  function Needed(v: Target, chunks: seq<seq<CHAR16>>): nat { |v.text| + |Concat(chunks)| + 1 }

  /** The size of a growing string after the flushes, when no growth that matters is refused. */
  function Room(v: Target, chunks: seq<seq<CHAR16>>, limit: nat): nat
  {
    if chunks == [] then v.maxlen
    else
      var room, n := Room(v, chunks[..|chunks| - 1], limit), Needed(v, chunks);
      if n <= room || (n == 1 && n + PRINT_STRING_LEN > limit) then room else n + PRINT_STRING_LEN
  }

  /** Each flush finds room, or the pool grants the growth, or there is no text yet that could be lost. */
  predicate Granted(v: Target, chunks: seq<seq<CHAR16>>, limit: nat)
  {
    chunks == [] ||
    var front, n := chunks[..|chunks| - 1], Needed(v, chunks);
    Granted(v, front, limit) && (n <= Room(v, front, limit) || n + PRINT_STRING_LEN <= limit || n == 1)
  }

  /**
   A growing string holds all of the stream exactly if every flush was granted its growth, and then
   has room for the NUL. What is lost once never comes back.
   */
  lemma {:induction false} GrowingReceives(v: Target, chunks: seq<seq<CHAR16>>, limit: nat)
    requires |v.text| <= v.maxlen
    ensures var w := Received(true, v, chunks, limit);
      && (w.text == v.text + Concat(chunks) <==> Granted(v, chunks, limit))
      && (Granted(v, chunks, limit) ==> w.maxlen == Room(v, chunks, limit))
      && (!Granted(v, chunks, limit) ==> |w.text| + 1 < Needed(v, chunks))
      && (w.text != [] && chunks != [] ==> |w.text| < w.maxlen)
  {
    hide Received, Granted, Room, Concat, GrowAppend;
    GrowingNone(v, limit);
    if chunks != [] {
      var front, t := chunks[..|chunks| - 1], chunks[|chunks| - 1];
      assert chunks == front + [t];
      GrowingReceives(v, front, limit);
      ReceivedMore(true, v, front, t, limit);
      GrantedMore(v, front, t, limit);
      Associates(v.text, Concat(front), t);
      GrowingStep(Received(true, v, front, limit), v.text + Concat(front), t, limit,
                  Granted(v, front, limit), Room(v, front, limit));
    }
  }

  lemma GrowingNone(v: Target, limit: nat)
    requires |v.text| <= v.maxlen
    ensures Received(true, v, [], limit) == v && v.text + Concat([]) == v.text
    ensures Granted(v, [], limit) && Room(v, [], limit) == v.maxlen
  {
  }

  lemma Associates(a: seq<CHAR16>, b: seq<CHAR16>, c: seq<CHAR16>)
    ensures a + (b + c) == (a + b) + c
  {
  }

  /** One flush, in terms of the text `all` that was printed before it and of whether it is all there. */
  lemma GrowingStep(w: Target, all: seq<CHAR16>, t: seq<CHAR16>, limit: nat, granted: bool, room: nat)
    requires |w.text| <= w.maxlen && (w.text == all <==> granted)
    requires if granted then w.maxlen == room else |w.text| < |all|
    ensures var n := |all| + |t| + 1;
      var now, more := GrowAppend(w, t, limit), granted && (n <= room || n + PRINT_STRING_LEN <= limit || n == 1);
      && (now.text == all + t <==> more)
      && (now.text != [] ==> |now.text| < now.maxlen)
      && if more then
           now.maxlen == if n <= room || (n == 1 && n + PRINT_STRING_LEN > limit) then room else n + PRINT_STRING_LEN
         else |now.text| + 1 < n
  {
    GrowthNeeded(w, t, limit);
  }

  lemma GrantedMore(v: Target, front: seq<seq<CHAR16>>, t: seq<CHAR16>, limit: nat)
    ensures var chunks := front + [t];
      var n, room := Needed(v, chunks), Room(v, front, limit);
      && Concat(chunks) == Concat(front) + t
      && (Granted(v, chunks, limit)
          <==> Granted(v, front, limit) && (n <= room || n + PRINT_STRING_LEN <= limit || n == 1))
      && Room(v, chunks, limit)
         == if n <= room || (n == 1 && n + PRINT_STRING_LEN > limit) then room else n + PRINT_STRING_LEN
  {
    assert (front + [t])[..|front|] == front;
  }

  /** Enough for the largest request is enough. */
  lemma {:induction false} EnoughIsGranted(v: Target, chunks: seq<seq<CHAR16>>, limit: nat)
    requires Needed(v, chunks) + PRINT_STRING_LEN <= limit
    ensures Granted(v, chunks, limit)
  {
    if chunks != [] { EnoughIsGranted(v, chunks[..|chunks| - 1], limit); }
  }

  /** The string a `POOL_PRINT` describes: its memory, how much of it is text, and its size. */
  class PoolPrint {
    var str: Option<seq<CHAR16>>
    var len: nat
    var maxlen: nat
    const grows: bool
    const limit: nat

    /** A fixed string has one place more than `maxlen`, for the NUL. */
    ghost predicate Valid()
      reads this
    {
      if str.None? then grows && len == 0 && maxlen == 0
      else if grows then len < maxlen == |str.value|
      else len <= maxlen < |str.value|
    }

    ghost function Value(): (v: Target)
      requires Valid()
      reads this
      ensures |v.text| <= v.maxlen
    {
      Target(if str.None? then [] else str.value[..len], maxlen)
    }

    /** The NUL behind the text. */
    ghost predicate Ended()
      requires Valid()
      reads this
    {
      maxlen != 0 ==> str.Some? && str.value[len] == 0
    }

    /** `VSPrint` into memory for at least one character. */
    constructor Fixed(memory: seq<CHAR16>)
      requires memory != []
      ensures Valid() && !grows && Value() == Target([], |memory| - 1)
    {
      str := Some(memory);
      len := 0;
      maxlen := |memory| - 1;
      grows := false;
      limit := 0;
    }

    /** `VPoolPrint`: starts without a string. */
    constructor Growing(pool: nat)
      ensures Valid() && grows && limit == pool && Value() == Target([], 0)
    {
      str := None;
      len := 0;
      maxlen := 0;
      grows := true;
      limit := pool;
    }

    /** `_SPrint`. */
    method SPrint(buffer: array<CHAR16>, ghost t: seq<CHAR16>)
      requires Valid() && Holds(buffer[..], t)
      requires grows && str.Some? ==> len + |t| < maxlen
      modifies this
      ensures Valid() && Value() == Append(old(Value()), t) && Ended()
    {
      var n := StrLen(buffer, t);
      if len + n > maxlen {
        n := maxlen - len;
      }
      if str.Some? {
        str := Some(str.value[..len] + buffer[..n] + str.value[len + n..]);
        assert str.value[..len + n] == old(str.value[..len]) + t[..n];
      }
      len := len + n;
      if len < maxlen {
        str := Some(str.value[len := 0]);
      } else if maxlen != 0 {
        str := Some(str.value[maxlen := 0]);
      }
    }

    /** `_PoolPrint`. */
    method GrowPrint(buffer: array<CHAR16>, ghost t: seq<CHAR16>)
      requires Valid() && grows && Holds(buffer[..], t)
      modifies this
      ensures Valid() && Value() == GrowAppend(old(Value()), t, limit) && Ended()
    {
      var n := StrLen(buffer, t);
      var newlen := len + n + 1;
      if newlen > maxlen {
        newlen := newlen + PRINT_STRING_LEN;
        ReallocatePool(newlen);
      }
      SPrint(buffer, t);
    }

    /** Longer memory with the text copied over, or none if the pool refuses. */
    method ReallocatePool(size: nat)
      requires Valid() && grows && len < size
      modifies this
      ensures Valid()
      ensures Value() == if size <= limit then Target(old(Value()).text, size) else Target([], 0)
    {
      maxlen := size;
      if size <= limit {
        var text := if str.Some? then str.value[..len] else [];
        str := Some(text + seq(size - len, _ => 0));
      } else {
        str := None;
      }
      if str.None? {
        len := 0;
        maxlen := 0;
      }
    }

    /** Calls the worker. */
    method Output(buffer: array<CHAR16>, ghost t: seq<CHAR16>)
      requires Valid() && Holds(buffer[..], t)
      modifies this
      ensures Valid() && Value() == Worker(grows, old(Value()), t, limit) && Ended()
    {
      if grows {
        GrowPrint(buffer, t);
      } else {
        SPrint(buffer, t);
      }
    }
  }

  /** The buffer holds the string `t` and its NUL. */
  predicate Holds(b: seq<CHAR16>, t: seq<CHAR16>)
  {
    |t| < |b| && b[..|t|] == t && b[|t|] == 0 && 0 !in t
  }

  method StrLen(s: array<CHAR16>, ghost t: seq<CHAR16>) returns (n: nat)
    requires Holds(s[..], t)
    ensures n == |t|
  {
    n := 0;
    assert forall k :: 0 <= k < |t| ==> s[k] == t[k] && t[k] in t;
    while s[n] != 0
      invariant n <= |t|
      decreases |t| - n
    {
      n := n + 1;
    }
  }

  /** The engine with its buffer and the string behind its worker. */
  class PrintState {
    const buffer: array<CHAR16>
    var pos: nat
    var len: nat
    const output: PoolPrint
    ghost const start: Target
    ghost var chunks: seq<seq<CHAR16>>

    ghost predicate Valid()
      reads this, buffer, output
    {
      buffer.Length == PRINT_STRING_LEN && pos < PRINT_STRING_LEN - 1
      && output.Valid() && |start.text| <= start.maxlen
      && output.Value() == Received(output.grows, start, chunks, output.limit)
      && (chunks != [] ==> output.Ended())
    }

    /** The engine as a value. */
    ghost function Value(): Engine
      requires pos <= buffer.Length
      reads this, buffer
    {
      Engine(buffer[..pos], chunks, len)
    }

    constructor (target: PoolPrint)
      requires target.Valid()
      ensures Valid() && output == target && fresh(buffer)
      ensures start == target.Value() && Value() == Engine([], [], 0)
    {
      buffer := new CHAR16[PRINT_STRING_LEN](_ => 0);
      pos := 0;
      len := 0;
      output := target;
      start := target.Value();
      chunks := [];
    }

    /** Ends the pending text with a NUL, hands it to the worker and starts the buffer over. */
    method PFLUSH()
      requires buffer.Length == PRINT_STRING_LEN && pos < PRINT_STRING_LEN
      requires output.Valid() && |start.text| <= start.maxlen
      requires output.Value() == Received(output.grows, start, chunks, output.limit)
      modifies this`pos, this`chunks, buffer, output
      ensures Valid() && Value() == Flush(old(Value())) && chunks != []
    {
      hide Received, Worker, UpToNul, Holds;
      ghost var pending := buffer[..pos];
      ghost var t := UpToNul(pending);
      buffer[pos] := 0;
      UpToNulHolds(buffer[..], pos);
      assert buffer[..pos] == pending;
      ReceivedMore(output.grows, start, chunks, t, output.limit);
      output.Output(buffer, t);
      chunks := chunks + [t];
      pos := 0;
    }

    /** Stores a character and flushes the buffer when it is full. */
    method StoreChar(c: CHAR16)
      requires Valid()
      modifies this`pos, this`len, this`chunks, buffer, output
      ensures Valid() && Value() == Store(old(Value()), c)
    {
      ghost var e := Value();
      ghost var text := output.Value();
      buffer[pos] := c;
      assert buffer[..pos + 1] == e.pending + [c];
      pos := pos + 1;
      len := len + 1;
      assert output.Value() == text;
      hide Received, UpToNul;
      if pos >= PRINT_STRING_LEN - 1 {
        PFLUSH();
      }
    }

    /** Puts one character out, a newline with a carriage return before it. */
    method PPUTC(c: CHAR16)
      requires Valid()
      modifies this`pos, this`len, this`chunks, buffer, output
      ensures Valid() && Value() == Put(old(Value()), c)
      decreases if c == NEWLINE then 1 else 0
    {
      hide Store, Valid;
      if c == NEWLINE {
        PPUTC(RETURN);
      }
      StoreChar(c);
    }

    /** Puts out `n` times the character `c`. */
    method Repeat(c: CHAR16, n: nat)
      requires Valid()
      modifies this`pos, this`len, this`chunks, buffer, output
      ensures Valid() && Value() == PutAll(old(Value()), Fill(c, n))
    {
      ghost var e := Value();
      FillNone(c);
      PutAllNone(e);
      hide *;
      var i := 0;
      while i < n
        invariant i <= n && Valid() && Value() == PutAll(e, Fill(c, i))
      {
        PutAllNext(e, Fill(c, i), c);
        FillNext(c, i);
        PPUTC(c);
        i := i + 1;
      }
    }

    /** Puts out the first `n` characters of an item. */
    method PutChars(item: Text, n: nat)
      requires Valid() && n <= |Chars(item)|
      modifies this`pos, this`len, this`chunks, buffer, output
      ensures Valid() && Value() == PutAll(old(Value()), Chars(item)[..n])
    {
      ghost var e, s := Value(), Chars(item);
      hide *;
      PutAllNone(e);
      TakeNone(s);
      var i := 0;
      while i < n
        invariant i <= n && Valid() && Value() == PutAll(e, s[..i])
      {
        PutAllNext(e, s[..i], s[i]);
        TakeNext(s, i);
        var c := PGETC(item, i);
        PPUTC(c);
        i := i + 1;
      }
    }

    /** Puts out spaces, padding, the first `n` characters of the item, and spaces. */
    method PutField(left: nat, pad: CHAR16, pads: nat, item: Text, n: nat, right: nat)
      requires Valid() && n <= |Chars(item)|
      modifies this`pos, this`len, this`chunks, buffer, output
      ensures Valid() && Value() == PutAll(old(Value()), Parts(left, pad, pads, Chars(item)[..n], right))
    {
      ghost var e := Value();
      hide *;
      Repeat(SPACE, left);
      Repeat(pad, pads);
      PutChars(item, n);
      Repeat(SPACE, right);
      PutAllParts(e, left, pad, pads, Chars(item)[..n], right);
    }

    /** Puts out an item in its field. */
    method PITEM(item: Text, fieldWidth: nat, width: nat, pad: CHAR16, padBefore: bool)
      requires Valid() && Terminated(Chars(item))
      modifies this`pos, this`len, this`chunks, buffer, output
      ensures Valid() && Value() == PutAll(old(Value()), Layout(Chars(item), fieldWidth, width, pad, padBefore))
    {
      hide *;
      var n := ItemLen(item, fieldWidth);
      var field := if fieldWidth == NO_WIDTH then n else fieldWidth;
      var columns := if n > width then n else width;
      var outer := if columns < field then field - columns else 0;
      var left := if padBefore then outer else 0;
      LayoutIs(Chars(item), fieldWidth, width, pad, padBefore, n, columns, outer);
      PutField(left, pad, columns - n, item, n, outer - left);
    }

    /** `_Print` for a format without `%`: every character, a last flush, and the count. */
    method PrintPlain(fmt: Text) returns (count: nat)
      requires Valid() && Value() == Engine([], [], 0)
      requires Terminated(Chars(fmt)) && PERCENT !in Chars(fmt)
      modifies this`pos, this`len, this`chunks, buffer, output
      ensures output.Valid() && output.Ended()
      ensures Printed(output.grows, start, output.Value(), output.limit, Expand(BeforeNul(Chars(fmt))))
      ensures count == |Expand(BeforeNul(Chars(fmt)))|
    {
      hide *;
      PutFormat(fmt);
      TerminatedSome(Chars(fmt));
      Finish();
      PrintedAll(BeforeNul(Chars(fmt)), output.grows, start, output.limit);
      count := len;
    }

    /** The loop over the format. */
    method PutFormat(fmt: Text)
      requires Valid() && Terminated(Chars(fmt)) && PERCENT !in Chars(fmt)
      modifies this`pos, this`len, this`chunks, buffer, output
      ensures Valid() && Value() == PutAll(old(Value()), BeforeNul(Chars(fmt)))
    {
      ghost var e, s := Value(), Chars(fmt);
      hide *;
      TerminatedSome(s);
      PutAllNone(e);
      TakeNone(s);
      var i := 0;
      var c := PGETC(fmt, i);
      while c != 0
        invariant i < |s| && c == s[i] && Valid() && Value() == PutAll(e, s[..i])
        decreases |s| - i
      {
        PutAllNext(e, s[..i], s[i]);
        TakeNext(s, i);
        TerminatedAt(s, i);
        PPUTC(c);
        i := i + 1;
        c := PGETC(fmt, i);
      }
      TerminatedAt(s, i);
    }

    /** The last flush. */
    method Finish()
      requires Valid()
      modifies this`pos, this`len, this`chunks, buffer, output
      ensures Valid() && Value() == Flush(old(Value()))
      ensures chunks == Flush(old(Value())).chunks && len == Flush(old(Value())).len
      ensures output.Valid() && |start.text| <= start.maxlen && output.Ended()
      ensures output.Value() == Received(output.grows, start, chunks, output.limit)
    {
      PFLUSH();
    }
  }

  function BeforeNul(s: seq<CHAR16>): seq<CHAR16>
    requires Terminated(s)
  {
    s[..|s| - 1]
  }

  lemma TerminatedAt(s: seq<CHAR16>, i: nat)
    requires Terminated(s) && i < |s|
    ensures if s[i] != 0 then i + 1 < |s| else s[..i] == BeforeNul(s)
  {
  }

  lemma TerminatedSome(s: seq<CHAR16>)
    requires Terminated(s)
    ensures s != [] && 0 !in BeforeNul(s)
  {
    assert forall k :: 0 <= k < |s| - 1 ==> BeforeNul(s)[k] == s[k];
  }

  /** The length of an item: up to its NUL or the field width. */
  method ItemLen(item: Text, fieldWidth: nat) returns (n: nat)
    requires Terminated(Chars(item))
    ensures n == ItemLength(Chars(item), fieldWidth)
  {
    hide Chars;
    n := 0;
    while n < fieldWidth
      invariant n <= fieldWidth && n < |Chars(item)|
      decreases |Chars(item)| - n
    {
      var c := PGETC(item, n);
      if c == 0 {
        break;
      }
      n := n + 1;
    }
  }

  const CHUNK := PRINT_STRING_LEN - 1

  /** The texts that printing `stream` flushes: full buffers, and what is left at the end. */
  function Slices(stream: seq<CHAR16>): (chunks: seq<seq<CHAR16>>)
    ensures chunks != [] && |chunks[|chunks| - 1]| < CHUNK
  {
    if |stream| < CHUNK then [stream] else [stream[..CHUNK]] + Slices(stream[CHUNK..])
  }

  /** The texts after one more character in the last of them. */
  function Pushed(chunks: seq<seq<CHAR16>>, c: CHAR16): seq<seq<CHAR16>>
    requires chunks != []
  {
    var last := chunks[|chunks| - 1] + [c];
    chunks[..|chunks| - 1] + if |last| < CHUNK then [last] else [last, []]
  }

  lemma PushedBehind(first: seq<CHAR16>, chunks: seq<seq<CHAR16>>, c: CHAR16)
    requires chunks != []
    ensures Pushed([first] + chunks, c) == [first] + Pushed(chunks, c)
  {
    assert ([first] + chunks)[..|chunks|] == [first] + chunks[..|chunks| - 1];
  }

  lemma {:induction false} SlicesPush(s: seq<CHAR16>, c: CHAR16)
    ensures Slices(s + [c]) == Pushed(Slices(s), c)
  {
    if |s| < CHUNK {
      SlicesShort(s, c);
    } else {
      var first, rest := s[..CHUNK], s[CHUNK..];
      assert (s + [c])[..CHUNK] == first && (s + [c])[CHUNK..] == rest + [c];
      SlicesStep(s);
      SlicesStep(s + [c]);
      hide *;
      SlicesPush(rest, c);
      PushedBehind(first, Slices(rest), c);
    }
  }

  lemma SlicesShort(s: seq<CHAR16>, c: CHAR16)
    requires |s| < CHUNK
    ensures Slices(s + [c]) == Pushed(Slices(s), c)
  {
    PushedOne(s, c);
    hide Slices, Pushed;
    SlicesLast(s);
    if |s| + 1 < CHUNK {
      SlicesLast(s + [c]);
    } else {
      SlicesStep(s + [c]);
      SlicesLast([]);
      assert (s + [c])[..CHUNK] == s + [c] && (s + [c])[CHUNK..] == [];
      assert [s + [c]] + [[]] == [s + [c], []];
    }
  }

  lemma PushedOne(s: seq<CHAR16>, c: CHAR16)
    ensures Pushed([s], c) == if |s| + 1 < CHUNK then [s + [c]] else [s + [c], []]
  {
  }

  lemma SlicesLast(s: seq<CHAR16>)
    requires |s| < CHUNK
    ensures Slices(s) == [s]
  {
  }

  lemma SlicesStep(s: seq<CHAR16>)
    requires |s| >= CHUNK
    ensures Slices(s) == [s[..CHUNK]] + Slices(s[CHUNK..])
  {
  }

  /** The slices make up the stream, and each but the last has 199 characters. */
  lemma {:induction false} SlicesAre(stream: seq<CHAR16>)
    ensures Slices(stream) != [] && forall k :: 0 <= k < |Slices(stream)| - 1 ==> |Slices(stream)[k]| == 199
    ensures Concat(Slices(stream)) == stream
  {
    if |stream| < CHUNK {
      assert Concat([stream]) == stream by { assert [stream][..0] == []; }
    } else {
      var first, rest := stream[..CHUNK], Slices(stream[CHUNK..]);
      SlicesAre(stream[CHUNK..]);
      assert Slices(stream) == [first] + rest;
      ConcatFirst(first, rest);
    }
  }

  lemma {:induction false} ConcatFirst(first: seq<CHAR16>, rest: seq<seq<CHAR16>>)
    ensures Concat([first] + rest) == first + Concat(rest)
    decreases |rest|
  {
    hide Concat;
    ConcatNone();
    if rest == [] {
      ConcatLast([], first);
      assert [first] + rest == [] + [first];
    } else {
      var front, last := rest[..|rest| - 1], rest[|rest| - 1];
      assert rest == front + [last];
      assert [first] + rest == ([first] + front) + [last];
      ConcatLast([first] + front, last);
      ConcatLast(front, last);
      ConcatFirst(first, front);
    }
  }

  lemma ConcatNone()
    ensures Concat([]) == []
  {
  }

  lemma ConcatLast(front: seq<seq<CHAR16>>, last: seq<CHAR16>)
    ensures Concat(front + [last]) == Concat(front) + last
  {
    assert (front + [last])[..|front|] == front;
  }

  /** Flushed and pending texts are the slices of the stream. */
  predicate Sliced(e: Engine, stream: seq<CHAR16>)
  {
    Sound(e) && e.chunks + [e.pending] == Slices(stream)
  }

  lemma StoreSliced(e: Engine, c: CHAR16, stream: seq<CHAR16>)
    requires Sliced(e, stream) && c != 0
    ensures Sliced(Store(e, c), stream + [c])
  {
    SlicesPush(stream, c);
    var last := e.pending + [c];
    assert Slices(stream)[..|e.chunks|] == e.chunks && Slices(stream)[|e.chunks|] == e.pending;
    UpToNulAll(last);
    assert e.chunks + [last, []] == e.chunks + [last] + [[]];
  }

  lemma {:induction false} PutAllSliced(s: seq<CHAR16>)
    requires 0 !in s
    ensures Sliced(PutAll(Engine([], [], 0), s), Expand(s))
  {
    hide Sliced, Store;
    if s == [] {
      EmptySliced();
    } else {
      var front, c := s[..|s| - 1], s[|s| - 1];
      var e, stream := PutAll(Engine([], [], 0), front), Expand(front);
      PutAllSliced(front);
      assert s == front + [c];
      ExpandConcat(front, [c]);
      if c == NEWLINE {
        StoreSliced(e, RETURN, stream);
        StoreSliced(Store(e, RETURN), NEWLINE, stream + [RETURN]);
        assert Expand([c]) == [RETURN, NEWLINE];
        assert stream + [RETURN] + [NEWLINE] == stream + Expand([c]);
      } else {
        StoreSliced(e, c, stream);
        assert Expand([c]) == [c];
      }
    }
  }

  lemma EmptySliced()
    ensures Sliced(Engine([], [], 0), [])
  {
  }

  /**
   What a worker's string holds after printing `stream`: a fixed one holds what fits; a growing one
   holds all of it, with room for the NUL, exactly if the pool grants each flush its growth.
   */
  predicate Printed(grows: bool, start: Target, now: Target, limit: nat, stream: seq<CHAR16>)
  {
    if !grows then now == Target(Cut(start.text + stream, start.maxlen), start.maxlen)
    else
      && (now.text == start.text + stream <==> Granted(start, Slices(stream), limit))
      && (now.text != [] ==> |now.text| < now.maxlen)
  }

  /** Buffered printing to either worker prints the unbuffered stream. */
  lemma PrintedAll(s: seq<CHAR16>, grows: bool, start: Target, limit: nat)
    requires 0 !in s && |start.text| <= start.maxlen
    ensures var e := Flush(PutAll(Engine([], [], 0), s));
            e.len == |Expand(s)| && e.chunks == Slices(Expand(s))
            && Printed(grows, start, Received(grows, start, e.chunks, limit), limit, Expand(s))
  {
    var e0 := Engine([], [], 0);
    var f := PutAll(e0, s);
    StreamOf(e0);
    PutAllStream(e0, s);
    PutAllSliced(s);
    UpToNulAll(f.pending);
    FlushStream(f);
    var e := Flush(f);
    StreamOf(e);
    FlushCount(f);
    hide PutAll, Flush, Stream, Expand, Received, Cut, Slices, Granted;
    assert Concat(e.chunks) == Expand(s);
    FixedReceives(start, e.chunks, limit);
    GrowingReceives(start, e.chunks, limit);
  }

  lemma FlushCount(e: Engine)
    ensures Flush(e).len == e.len && Flush(e).chunks != []
  {
  }

  const PERCENT: CHAR16 := 37
  const NO_WIDTH := 0xFFFF_FFFF_FFFF_FFFF

  function Fill(c: CHAR16, n: nat): seq<CHAR16> { seq(n, _ => c) }

  /** The part of the item that is printed: up to its NUL or the field width. */
  function ItemLength(item: seq<CHAR16>, fieldWidth: nat): (n: nat)
    requires Terminated(item)
    ensures n < |item|
  {
    if fieldWidth < |item| - 1 then fieldWidth else |item| - 1
  }

  /** The item padded to its width, and with spaces on one side to the field width. */
  function Layout(item: seq<CHAR16>, fieldWidth: nat, width: nat, pad: CHAR16, padBefore: bool): seq<CHAR16>
    requires Terminated(item)
  {
    var n := ItemLength(item, fieldWidth);
    var field := if fieldWidth == NO_WIDTH then n else fieldWidth;
    var columns := if n > width then n else width;
    var outer := Fill(SPACE, if columns < field then field - columns else 0);
    (if padBefore then outer else []) + Fill(pad, columns - n) + item[..n] + (if padBefore then [] else outer)
  }

  /** A field has as many columns as the larger of its widths; without a field width the item is not cut. */
  lemma LayoutColumns(item: seq<CHAR16>, fieldWidth: nat, width: nat, pad: CHAR16, padBefore: bool)
    requires Terminated(item) && |item| <= NO_WIDTH
    ensures |Layout(item, fieldWidth, width, pad, padBefore)|
         == Max(width, if fieldWidth == NO_WIDTH then |item| - 1 else fieldWidth)
  {
  }

  /**
   Where everything in a field is: the item up to its width, the padding before it, and spaces (32) on
   the side asked for.
   */
  lemma LayoutPlaces(item: seq<CHAR16>, fieldWidth: nat, width: nat, pad: CHAR16, padBefore: bool)
    requires Terminated(item)
    ensures var t := Layout(item, fieldWidth, width, pad, padBefore);
      var n := if fieldWidth < |item| - 1 then fieldWidth else |item| - 1;
      var pads := if width > n then width - n else 0;
      var start := if padBefore then |t| - n else pads;
      && pads <= start && start + n <= |t| && t[start..start + n] == item[..n]
      && (forall k :: start - pads <= k < start ==> t[k] == pad)
      && (forall k :: 0 <= k < start - pads || start + n <= k < |t| ==> t[k] == 32)
  {
  }

  function Max(a: int, b: int): int { if a < b then b else a }

  function Parts(left: nat, pad: CHAR16, pads: nat, text: seq<CHAR16>, right: nat): seq<CHAR16>
  {
    Fill(SPACE, left) + Fill(pad, pads) + text + Fill(SPACE, right)
  }

  lemma LayoutIs(item: seq<CHAR16>, fieldWidth: nat, width: nat, pad: CHAR16, padBefore: bool,
                 n: nat, columns: nat, outer: nat)
    requires Terminated(item) && n == ItemLength(item, fieldWidth) && columns == (if n > width then n else width)
    requires var field := if fieldWidth == NO_WIDTH then n else fieldWidth;
             outer == if columns < field then field - columns else 0
    ensures n <= |item| && n <= columns
    ensures var left := if padBefore then outer else 0;
            Layout(item, fieldWidth, width, pad, padBefore) == Parts(left, pad, columns - n, item[..n], outer - left)
  {
  }

  lemma FillNext(c: CHAR16, n: nat)
    ensures Fill(c, n + 1) == Fill(c, n) + [c]
  {
  }

  lemma TakeNone(s: seq<CHAR16>)
    ensures s[..0] == []
  {
  }

  lemma TakeNext(s: seq<CHAR16>, i: nat)
    requires i < |s|
    ensures s[..i + 1] == s[..i] + [s[i]]
  {
  }

  lemma FillNone(c: CHAR16)
    ensures Fill(c, 0) == []
  {
  }

  lemma PutAllNone(e: Engine)
    ensures PutAll(e, []) == e
  {
  }

  lemma PutAllNext(e: Engine, s: seq<CHAR16>, c: CHAR16)
    ensures PutAll(e, s + [c]) == Put(PutAll(e, s), c)
  {
    assert (s + [c])[..|s|] == s;
  }

  lemma {:induction false} PutAllMore(e: Engine, s: seq<CHAR16>, t: seq<CHAR16>)
    ensures PutAll(e, s + t) == PutAll(PutAll(e, s), t)
    decreases |t|
  {
    hide Put;
    if t == [] {
      assert s + t == s;
    } else {
      assert (s + t)[..|s + t| - 1] == s + t[..|t| - 1];
      PutAllMore(e, s, t[..|t| - 1]);
    }
  }

  lemma PutAllParts(e: Engine, left: nat, pad: CHAR16, pads: nat, text: seq<CHAR16>, right: nat)
    ensures PutAll(e, Parts(left, pad, pads, text, right))
         == PutAll(PutAll(PutAll(PutAll(e, Fill(SPACE, left)), Fill(pad, pads)), text), Fill(SPACE, right))
  {
    hide PutAll, Fill;
    var a, b, d := Fill(SPACE, left), Fill(pad, pads), Fill(SPACE, right);
    PutAllMore(e, a + b + text, d);
    PutAllMore(e, a + b, text);
    PutAllMore(e, a, b);
  }

  lemma StreamOf(e: Engine)
    requires e.pending == []
    ensures Stream(e) == Concat(e.chunks) && (e.chunks == [] ==> Stream(e) == [])
  {
  }

  lemma UpToNulHolds(b: seq<CHAR16>, n: nat)
    requires n < |b| && b[n] == 0
    ensures Holds(b, UpToNul(b[..n]))
  {
  }
}
