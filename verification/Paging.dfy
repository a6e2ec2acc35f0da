/** Paging a result that is computed anew for every page: a cursor carries an
    offset, and a mark by which another result is told apart. */
module Paging {
  import opened Prelude

  const MAX_ROWS: int := 1000

  type Byte = b: int | 0 <= b < 256
  type Sextet = b: int | 0 <= b < 64

  // ── base64url, section 5 of RFC 4648 ──

  function Symbol(i: Sextet): char {
    if i < 26 then 'A' + i as char
    else if i < 52 then 'a' + (i - 26) as char
    else if i < 62 then '0' + (i - 52) as char
    else if i == 62 then '-' else '_'
  }

  function IndexOf(c: char): Option<Sextet> {
    if 'A' <= c <= 'Z' then Some(c as int - 'A' as int)
    else if 'a' <= c <= 'z' then Some(c as int - 'a' as int + 26)
    else if '0' <= c <= '9' then Some(c as int - '0' as int + 52)
    else if c == '-' then Some(62)
    else if c == '_' then Some(63)
    else None
  }

  lemma SymbolReads(i: Sextet)
    ensures IndexOf(Symbol(i)) == Some(i) && Symbol(i) != '='
  {
  }

  function High(a: Byte): Sextet {
    a / 4
  }

  function Across(a: Byte, b: Byte): Sextet {
    a % 4 * 16 + b / 16
  }

  function Over(b: Byte, c: Byte): Sextet {
    b % 16 * 4 + c / 64
  }

  function Low(c: Byte): Sextet {
    c % 64
  }

  /** Three bytes make four sextets; one or two left over, filled up with zero
      bits, make two or three. */
  function Sextets(b: seq<Byte>): seq<Sextet> {
    if |b| == 0 then []
    else if |b| == 1 then [High(b[0]), Across(b[0], 0)]
    else if |b| == 2 then [High(b[0]), Across(b[0], b[1]), Over(b[1], 0)]
    else [High(b[0]), Across(b[0], b[1]), Over(b[1], b[2]), Low(b[2])] + Sextets(b[3..])
  }

  function First(w: Sextet, x: Sextet): Byte {
    w * 4 + x / 16
  }

  function Second(x: Sextet, y: Sextet): Byte {
    x % 16 * 16 + y / 4
  }

  function Third(y: Sextet, z: Sextet): Byte {
    y % 4 * 64 + z
  }

  function Bytes(s: seq<Sextet>): Option<seq<Byte>> {
    if |s| == 0 then Some([])
    else if |s| == 1 then None
    else if |s| == 2 then Some([First(s[0], s[1])])
    else if |s| == 3 then Some([First(s[0], s[1]), Second(s[1], s[2])])
    else
      var rest := Bytes(s[4..]);
      if rest == None then None
      else Some([First(s[0], s[1]), Second(s[1], s[2]), Third(s[2], s[3])] + rest.value)
  }

  function Text(s: seq<Sextet>): string {
    seq(|s|, i requires 0 <= i < |s| => Symbol(s[i]))
  }

  function Read(s: string): Option<seq<Sextet>> {
    if exists i :: 0 <= i < |s| && IndexOf(s[i]) == None then None
    else Some(seq(|s|, i requires 0 <= i < |s| => IndexOf(s[i]).value))
  }

  function Padding(n: nat): string {
    seq((4 - n % 4) % 4, _ => '=')
  }

  /** `urlsafe_b64encode`. */
  function Encode(b: seq<Byte>): string {
    Text(Sextets(b)) + Padding(|Sextets(b)|)
  }

  /** An encoding without its padding. */
  function Strip(s: string): string {
    if s != "" && s[|s| - 1] == '=' then Strip(s[..|s| - 1]) else s
  }

  /** And with it again, as many signs as the length calls for. */
  function Restore(s: string): string {
    s + Padding(|s|)
  }

  /** `urlsafe_b64decode`, of text in the alphabet: whole quads, with at most two
      signs of padding at the end. */
  function Decode(s: string): Option<seq<Byte>> {
    var bare := Strip(s);
    if |s| % 4 != 0 || |s| > |bare| + 2 then None
    else
      var sextets := Read(bare);
      if sextets == None then None else Bytes(sextets.value)
  }

  /** Splitting three bytes into sextets and joining them again. */
  lemma Rejoined(a: Byte, b: Byte, c: Byte)
    ensures First(High(a), Across(a, b)) == a
    ensures Second(Across(a, b), Over(b, c)) == b
    ensures Third(Over(b, c), Low(c)) == c
  {
  }

  lemma FirstRejoined(a: Byte, b: Byte)
    ensures First(High(a), Across(a, b)) == a
  {
  }

  ghost predicate Rejoins(b: seq<Byte>) {
    Bytes(Sextets(b)) == Some(b) && |Sextets(b)| % 4 != 1
  }

  lemma BytesOfTwo(s: seq<Sextet>, bytes: seq<Byte>)
    requires |s| == 2 && bytes == [First(s[0], s[1])]
    ensures Bytes(s) == Some(bytes)
  {
  }

  lemma BytesOfThree(s: seq<Sextet>, bytes: seq<Byte>)
    requires |s| == 3 && bytes == [First(s[0], s[1]), Second(s[1], s[2])]
    ensures Bytes(s) == Some(bytes)
  {
  }

  lemma BytesOfFour(s: seq<Sextet>, bytes: seq<Byte>)
    requires |s| >= 4 && |bytes| >= 3 && Bytes(s[4..]) == Some(bytes[3..])
    requires First(s[0], s[1]) == bytes[0] && Second(s[1], s[2]) == bytes[1] && Third(s[2], s[3]) == bytes[2]
    ensures Bytes(s) == Some(bytes)
  {
    assert bytes == [bytes[0], bytes[1], bytes[2]] + bytes[3..];
  }

  lemma OneByte(s: seq<Byte>)
    requires |s| == 1
    ensures Rejoins(s)
  {
    FirstRejoined(s[0], 0);
    BytesOfTwo(Sextets(s), s);
  }

  lemma TwoBytes(s: seq<Byte>)
    requires |s| == 2
    ensures Rejoins(s)
  {
    Rejoined(s[0], s[1], 0);
    BytesOfThree(Sextets(s), s);
  }

  lemma SextetsOfThree(s: seq<Byte>)
    requires |s| >= 3
    ensures var t := Sextets(s);
            && |t| == 4 + |Sextets(s[3..])| && t[4..] == Sextets(s[3..])
            && First(t[0], t[1]) == s[0] && Second(t[1], t[2]) == s[1] && Third(t[2], t[3]) == s[2]
  {
    Rejoined(s[0], s[1], s[2]);
  }

  lemma ThreeBytes(s: seq<Byte>)
    requires |s| >= 3 && Rejoins(s[3..])
    ensures Rejoins(s)
  {
    SextetsOfThree(s);
    ThreeBytesOf(s, Sextets(s), Sextets(s[3..]));
  }

  lemma ThreeBytesOf(s: seq<Byte>, t: seq<Sextet>, rest: seq<Sextet>)
    requires |s| >= 3 && |t| == 4 + |rest| && t[4..] == rest
    requires First(t[0], t[1]) == s[0] && Second(t[1], t[2]) == s[1] && Third(t[2], t[3]) == s[2]
    requires Bytes(rest) == Some(s[3..]) && |rest| % 4 != 1
    ensures Bytes(t) == Some(s) && |t| % 4 != 1
  {
    BytesOfFour(t, s);
    FourMore(|rest|);
  }

  lemma FourMore(n: nat)
    ensures (4 + n) % 4 == n % 4
  {
  }

  lemma {:induction false} BytesOfSextets(b: seq<Byte>)
    ensures Rejoins(b)
  {
    if |b| == 1 {
      OneByte(b);
    } else if |b| == 2 {
      TwoBytes(b);
    } else if |b| > 2 {
      BytesOfSextets(b[3..]);
      ThreeBytes(b);
    }
  }

  lemma TextReads(s: seq<Sextet>)
    ensures Read(Text(s)) == Some(s)
  {
    forall i | 0 <= i < |s| ensures IndexOf(Text(s)[i]) == Some(s[i]) {
      SymbolReads(s[i]);
    }
    var read := Read(Text(s));
    assert read.Some? && |read.value| == |s|;
    assert read.value == s;
  }

  /** A string that does not end in a padding sign, then `k` of them. */
  lemma {:induction false} StripPadding(s: string, k: nat)
    requires s == "" || s[|s| - 1] != '='
    ensures Strip(s + seq(k, _ => '=')) == s
  {
    var t := s + seq(k, _ => '=');
    if k == 0 {
      assert t == s;
    } else {
      assert t[..|t| - 1] == s + seq(k - 1, _ => '=');
      StripPadding(s, k - 1);
    }
  }

  lemma PaddedWhole(n: nat)
    ensures (n + |Padding(n)|) % 4 == 0
    ensures n % 4 != 1 ==> |Padding(n)| <= 2
  {
  }

  lemma PaddedSize(s: seq<Sextet>)
    requires |s| % 4 != 1
    ensures |Text(s) + Padding(|s|)| % 4 == 0 && |Text(s) + Padding(|s|)| <= |Text(s)| + 2
  {
    PaddedWhole(|s|);
  }

  lemma DecodeText(s: seq<Sextet>)
    requires |s| % 4 != 1
    ensures Decode(Text(s) + Padding(|s|)) == Bytes(s)
  {
    StripText(s);
    PaddedSize(s);
    TextReads(s);
    DecodeBare(Text(s) + Padding(|s|), Text(s), s);
  }

  lemma StripText(s: seq<Sextet>)
    ensures Strip(Text(s) + Padding(|s|)) == Text(s)
  {
    if s != [] {
      SymbolReads(s[|s| - 1]);
    }
    StripPadding(Text(s), (4 - |s| % 4) % 4);
  }

  lemma DecodeBare(padded: string, bare: string, s: seq<Sextet>)
    requires Strip(padded) == bare && Read(bare) == Some(s)
    requires |padded| % 4 == 0 && |padded| <= |bare| + 2
    ensures Decode(padded) == Bytes(s)
  {
  }

  /** The padding stripped from an encoding is implied by what is left, and
      decoding undoes encoding. */
  lemma Base64RoundTrip(b: seq<Byte>)
    ensures Restore(Strip(Encode(b))) == Encode(b) && Decode(Encode(b)) == Some(b)
    ensures b != [] ==> Strip(Encode(b)) != ""
  {
    var s := Sextets(b);
    BytesOfSextets(b);
    DecodeText(s);
    StripText(s);
  }

  // ── the cursor ──

  datatype State = State(offset: int, fingerprint: string, view: string)

  /** JSON, as far as the cursor needs it. */
  datatype Codec = Codec(write: State -> seq<Byte>, read: seq<Byte> -> Option<State>)

  ghost predicate Lossless(c: Codec) {
    forall s :: c.write(s) != [] && c.read(c.write(s)) == Some(s)
  }

  function WriteCursor(c: Codec, s: State): string {
    Strip(Encode(c.write(s)))
  }

  function ReadCursor(c: Codec, cursor: string): Option<State> {
    var b := Decode(Restore(cursor));
    if b == None then None else c.read(b.value)
  }

  /** Reading gives back what was written; and no cursor is blank. */
  lemma CursorRoundTrip(c: Codec, s: State)
    requires Lossless(c)
    ensures ReadCursor(c, WriteCursor(c, s)) == Some(s) && WriteCursor(c, s) != ""
  {
    Base64RoundTrip(c.write(s));
  }

  // ── one page ──

  datatype Served<T> = Stale | Page(rows: seq<T>, total: nat, next: Option<string>)

  function Clamp(x: int, lo: int, hi: int): int {
    if x < lo then lo else if x > hi then hi else x
  }

  /** `rows[lo:hi]`, with Python's reading of negative and large indices. */
  function Slice<T>(rows: seq<T>, lo: int, hi: int): seq<T> {
    var n := |rows|;
    var a, b := Clamp(if lo < 0 then lo + n else lo, 0, n), Clamp(if hi < 0 then hi + n else hi, 0, n);
    if a <= b then rows[a..b] else []
  }

  /** `page_rows`; a blank cursor asks for the first page. */
  function PageRows<T>(c: Codec, mark: seq<T> -> string, rows: seq<T>, limit: int, cursor: string,
                       view: string): Served<T> {
    var size := Clamp(limit, 1, MAX_ROWS);
    if cursor == "" then Cut(c, mark, rows, size, 0, view)
    else
      var state := ReadCursor(c, cursor);
      if state == None || state.value.view != view || state.value.fingerprint != mark(rows) then Stale
      else Cut(c, mark, rows, size, state.value.offset, view)
  }

  function Cut<T>(c: Codec, mark: seq<T> -> string, rows: seq<T>, size: int, offset: int, view: string): Served<T> {
    PageOf(c, mark, rows, offset, Slice(rows, offset, offset + size), view)
  }

  function PageOf<T>(c: Codec, mark: seq<T> -> string, rows: seq<T>, offset: int, page: seq<T>,
                     view: string): Served<T> {
    var end := offset + |page|;
    Page(page, |rows|, if end < |rows| then Some(WriteCursor(c, State(end, mark(rows), view))) else None)
  }

  /** A cursor the code wrote is refused exactly when it carries another
      fingerprint or another view; and any cursor at all, the unreadable ones
      included, exactly when it reads as no offset into this result for this
      view. */
  lemma CursorRefusedIff<T>(c: Codec, mark: seq<T> -> string, rows: seq<T>, limit: int, s: State, view: string)
    requires Lossless(c)
    ensures PageRows(c, mark, rows, limit, WriteCursor(c, s), view) == Stale
       <==> s.view != view || s.fingerprint != mark(rows)
    ensures forall cursor: string :: cursor != "" ==>
              (PageRows(c, mark, rows, limit, cursor, view) == Stale
               <==> forall offset :: ReadCursor(c, cursor) != Some(State(offset, mark(rows), view)))
  {
    CursorRoundTrip(c, s);
    forall cursor: string | cursor != ""
      ensures PageRows(c, mark, rows, limit, cursor, view) == Stale
         <==> forall offset :: ReadCursor(c, cursor) != Some(State(offset, mark(rows), view))
    {
      var read := ReadCursor(c, cursor);
      if read.Some? {
        assert read == Some(State(read.value.offset, read.value.fingerprint, read.value.view));
      }
    }
  }

  // ── following the cursors ──

  /** Rows got so far, and the cursor to go on with, if any. */
  datatype Progress<T> = Progress(got: seq<T>, next: Option<string>) | Lost

  /** One request more, if there is a cursor to go on with. */
  function Advance<T>(c: Codec, mark: seq<T> -> string, rows: seq<T>, view: string, limit: int,
                      p: Progress<T>): Progress<T> {
    if p.Lost? || p.next == None then p
    else
      match PageRows(c, mark, rows, limit, p.next.value, view)
      case Stale => Lost
      case Page(page, _, next) => Progress(p.got + page, next)
  }

  /** The first `k` requests, each with a limit of its own. */
  function Follow<T>(c: Codec, mark: seq<T> -> string, rows: seq<T>, view: string, limits: nat -> int,
                     k: nat): Progress<T> {
    if k == 0 then Progress([], Some(""))
    else Advance(c, mark, rows, view, limits(k - 1), Follow(c, mark, rows, view, limits, k - 1))
  }

  function EndAt(offset: nat, size: nat, total: nat): (end: nat)
    requires offset <= total && size > 0
    ensures offset <= end <= total && (offset < total ==> offset < end)
  {
    if offset + size < total then offset + size else total
  }

  function EndOf(offset: nat, limit: int, total: nat): (end: nat)
    requires offset <= total
    ensures offset <= end <= total && (offset < total ==> offset < end)
  {
    EndAt(offset, Clamp(limit, 1, MAX_ROWS), total)
  }

  /** The page of the rows from one offset up to another. */
  function Upto<T>(c: Codec, mark: seq<T> -> string, rows: seq<T>, offset: nat, end: nat, view: string): Served<T>
    requires offset <= end <= |rows|
  {
    Page(rows[offset..end], |rows|, if end < |rows| then Some(WriteCursor(c, State(end, mark(rows), view))) else None)
  }

  /** Where a request from an offset inside the result leads. */
  lemma CutInside<T>(c: Codec, mark: seq<T> -> string, rows: seq<T>, size: nat, offset: nat, view: string)
    requires size > 0 && (offset < |rows| || offset == 0)
    ensures Cut(c, mark, rows, size, offset, view) == Upto(c, mark, rows, offset, EndAt(offset, size, |rows|), view)
  {
    SliceInside(rows, offset, size);
    PageUpto(c, mark, rows, offset, EndAt(offset, size, |rows|), view);
  }

  lemma PageUpto<T>(c: Codec, mark: seq<T> -> string, rows: seq<T>, offset: nat, end: nat, view: string)
    requires offset <= end <= |rows|
    ensures PageOf(c, mark, rows, offset, rows[offset..end], view) == Upto(c, mark, rows, offset, end, view)
  {
  }

  lemma SliceInside<T>(rows: seq<T>, offset: nat, size: nat)
    requires offset < |rows| || offset == 0
    ensures size > 0 ==> Slice(rows, offset, offset + size) == rows[offset..EndAt(offset, size, |rows|)]
  {
  }

  /** The cursor a client holds after getting the first `offset` rows. */
  ghost predicate Resumes(c: Codec, fingerprint: string, view: string, cursor: string, offset: nat) {
    if offset == 0 then cursor == "" else cursor == WriteCursor(c, State(offset, fingerprint, view))
  }

  lemma RowsServed<T>(c: Codec, mark: seq<T> -> string, rows: seq<T>, limit: int, cursor: string, offset: nat,
                      view: string)
    requires Lossless(c) && Resumes(c, mark(rows), view, cursor, offset)
    ensures PageRows(c, mark, rows, limit, cursor, view) == Cut(c, mark, rows, Clamp(limit, 1, MAX_ROWS), offset, view)
  {
    CursorRoundTrip(c, State(offset, mark(rows), view));
  }

  lemma PageFrom<T>(c: Codec, mark: seq<T> -> string, rows: seq<T>, limit: int, cursor: string, offset: nat,
                    view: string)
    requires Lossless(c) && Resumes(c, mark(rows), view, cursor, offset) && (offset < |rows| || offset == 0)
    ensures PageRows(c, mark, rows, limit, cursor, view)
           == Upto(c, mark, rows, offset, EndOf(offset, limit, |rows|), view)
  {
    RowsServed(c, mark, rows, limit, cursor, offset, view);
    CutInside(c, mark, rows, Clamp(limit, 1, MAX_ROWS), offset, view);
  }

  /** How many rows that is: as many as asked for, at least one and at most
      `MAX_ROWS`, or all that remain; and there is a cursor exactly when some do. */
  lemma PageSize<T>(c: Codec, mark: seq<T> -> string, rows: seq<T>, limit: int, cursor: string, offset: nat,
                    view: string)
    requires Lossless(c) && Resumes(c, mark(rows), view, cursor, offset) && (offset < |rows| || offset == 0)
    ensures var served := PageRows(c, mark, rows, limit, cursor, view);
            var asked, rest := if limit < 1 then 1 else if limit > MAX_ROWS then MAX_ROWS else limit, |rows| - offset;
            && served.Page? && |served.rows| == (if asked < rest then asked else rest)
            && (served.next.Some? <==> asked < rest)
  {
    PageFrom(c, mark, rows, limit, cursor, offset, view);
  }

  /** After `k` requests: the first rows of the result, at least `k` of them
      unless it is exhausted, and the cursor for the next. */
  ghost predicate OnTrack<T>(c: Codec, mark: seq<T> -> string, rows: seq<T>, view: string, p: Progress<T>, k: nat) {
    && p.Progress? && p.got <= rows
    && match p.next {
         case None => p.got == rows
         case Some(cursor) =>
           k <= |p.got| && (p.got == [] || |p.got| < |rows|) && Resumes(c, mark(rows), view, cursor, |p.got|)
       }
  }

  lemma StaysOnTrack<T>(c: Codec, mark: seq<T> -> string, rows: seq<T>, view: string, limit: int, p: Progress<T>,
                        q: Progress<T>, k: nat)
    requires Lossless(c) && OnTrack(c, mark, rows, view, p, k) && q == Advance(c, mark, rows, view, limit, p)
    ensures OnTrack(c, mark, rows, view, q, k + 1)
  {
    if p.next.Some? {
      var offset, end := |p.got|, EndOf(|p.got|, limit, |rows|);
      PageFrom(c, mark, rows, limit, p.next.value, offset, view);
      Joined(p.got, rows, end);
      var next := if end < |rows| then Some(WriteCursor(c, State(end, mark(rows), view))) else None;
      assert q == Progress(rows[..end], next);
    }
  }

  lemma Joined<T>(got: seq<T>, rows: seq<T>, end: nat)
    requires got <= rows && |got| <= end <= |rows|
    ensures got + rows[|got|..end] == rows[..end]
    ensures rows[..|rows|] == rows
  {
  }

  lemma {:induction false} FollowStaysOnTrack<T>(c: Codec, mark: seq<T> -> string, rows: seq<T>, view: string,
                                                 limits: nat -> int, k: nat)
    requires Lossless(c)
    ensures OnTrack(c, mark, rows, view, Follow(c, mark, rows, view, limits, k), k)
  {
    if k > 0 {
      FollowStaysOnTrack(c, mark, rows, view, limits, k - 1);
      StaysOnTrack(c, mark, rows, view, limits(k - 1), Follow(c, mark, rows, view, limits, k - 1),
                   Follow(c, mark, rows, view, limits, k), k - 1);
    }
  }

  /** On an unchanged result, whatever the limits: no request is refused, the
      rows got are always the first of the result, and within one request more
      than there are rows the walk ends with all rows, in order, each once. */
  lemma FollowingIsComplete<T>(c: Codec, mark: seq<T> -> string, rows: seq<T>, view: string, limits: nat -> int, k: nat)
    requires Lossless(c)
    ensures var p := Follow(c, mark, rows, view, limits, k);
            p.Progress? && p.got <= rows && (p.next == None ==> p.got == rows) && (p.next.Some? ==> k <= |p.got|)
    ensures k > |rows| ==> Follow(c, mark, rows, view, limits, k) == Progress(rows, None)
  {
    FollowStaysOnTrack(c, mark, rows, view, limits, k);
  }
}
