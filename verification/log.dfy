/**
  The bounded error-message assembly of ngx_log.c: ngx_log_errno, the line ngx_log_stderr
  writes, ngx_strerror (src/os/unix/ngx_errno.c) and the error-log path ngx_log_init
  builds from the prefix and the file name.

  A buffer is modelled as the bytes written into it so far; a C string as the bytes found
  at its pointer, which contain its NUL. What the C library says about an error code
  (strerrordesc_np) and whether a file opens are inputs.
 */
module Log {
  import opened Config
  import opened Format

  /** NGX_MAX_ERROR_STR, the size of ngx_log_stderr's buffer; ngx_log.h is not part of this model. */
  const MaxErrorStr: nat := 2048

  /** The bytes ngx_log_errno keeps free at the end of the buffer (ngx_log.c:120). */
  const ErrnoRoom: nat := 50

  /** NGX_LINEFEED_SIZE (src/os/unix/ngx_files.h). */
  const LinefeedSize: nat := 1

  const Slash: Byte := 47
  const Colon: Byte := 58
  const OpenParen: Byte := 40
  const CloseParen: Byte := 41
  const Dot: Byte := 46

  /** What ngx_log_stderr writes before the message (ngx_log.c:89). */
  const NginxTag: seq<Byte> := [110, 103, 105, 110, 120, Colon, Space]

  /** What replaces the end of the text when ngx_log_errno makes room (ngx_log.c:127-129). */
  const Dots: seq<Byte> := [Dot, Dot, Dot]

  /** The format of ngx_log.c:134, " (%d: ", with its NUL. */
  const ErrnoFormat: seq<Byte> := [Space, OpenParen, Percent, Ascii('d'), Colon, Space, Nul]

  /** ngx_unknown_error (src/os/unix/ngx_errno.c:62). */
  const UnknownError: seq<Byte> := [85, 110, 107, 110, 111, 119, 110, Space, 101, 114, 114, 111, 114]

  // ---------------------------------------------------------------------------------
  // ngx_strerror (src/os/unix/ngx_errno.c:74-91)
  // ---------------------------------------------------------------------------------

  /** The description of an error: strerrordesc_np's text, or "Unknown error" when it has none. */
  function Message(desc: Option<seq<Byte>>): seq<Byte>
  {
    if desc.Some? then desc.value else UnknownError
  }

  /**
    ngx_strerror(err, errstr, size): the bytes copied to errstr, where `desc` is what
    strerrordesc_np(err) returns (None for NULL) read up to its NUL. The copy is the
    description's longest prefix that fits.
   */
  function Strerror(desc: Option<seq<Byte>>, size: nat): (r: seq<Byte>)
    ensures r <= Message(desc)
    ensures |r| == size || r == Message(desc)
    ensures |r| <= size
  {
    var msg := Message(desc);
    msg[..Min(size, |msg|)]
  }

  // ---------------------------------------------------------------------------------
  // " (%d: "
  // ---------------------------------------------------------------------------------

  /** The decimal text of an int, with '-' when it is negative. */
  function Decimal(v: int): seq<Byte>
  {
    if v < 0 then [Minus] + Digits(-v, 10, false) else Digits(v, 10, false)
  }

  /** What "%d" prints for an ngx_err_t, a C int: its decimal text. */
  function ErrnoCode(err: int): (code: seq<Byte>)
    ensures 1 <= |code| <= Int32Len
  {
    DecimalLength(Signed32(err));
    Decimal(Signed32(err))
  }

  /** What " (%d: " prints around the code. */
  function Opening(code: seq<Byte>): (o: seq<Byte>)
    ensures |o| == |code| + 4
  {
    [Space, OpenParen] + code + [Colon, Space]
  }

  /** An int prints in at most NGX_INT32_LEN bytes. */
  lemma DecimalLength(v: int)
    requires -0x8000_0000 <= v < 0x8000_0000
    ensures 1 <= |Decimal(v)| <= Int32Len
  {
    var m: nat := if v < 0 then -v else v;
    DigitsFitTemp(m, 0);
  }

  /** An int read by "%d" prints as its decimal text when there is room for it. */
  lemma DecimalNumber(room: nat, v: int)
    requires room >= |Decimal(Signed32(v))|
    ensures PrintNumber(room, NumberArg(Ascii('d'), PlainSpec, v)) == Decimal(Signed32(v))
  {
    var w := Signed32(v);
    assert NumberArg(Ascii('d'), PlainSpec, v) == Number(true, w, 0, Space, 0, 0);
    if w < 0 {
      assert Signed32(w) == w;
      assert NumberArg(Ascii('d'), PlainSpec, w) == Number(true, w, 0, Space, 0, 0);
      NegativeNumber(room, w);
    } else {
      NonNegativeDecimal(room, w);
    }
  }

  /** A value that is not negative prints as its digits. */
  lemma NonNegativeDecimal(room: nat, w: int)
    requires 0 <= w < 0x8000_0000 && room >= |Decimal(w)|
    ensures PrintNumber(room, Number(true, w, 0, Space, 0, 0)) == Decimal(w)
  {
    NumRoundTrip(room, w, Space, 0, 0);
    assert Repeat(Space, 0) == [];
  }

  /** The "%d" of ngx_log.c:134 consumes err and prints ErrnoCode(err). */
  lemma ErrnoDirective(err: int, room: nat)
    requires room >= |ErrnoCode(err)|
    ensures StepAt(ErrnoFormat, 2, [Int(err)], 0, room) == Some(Step(ErrnoCode(err), 4, 1))
  {
    BareDirective(ErrnoFormat, 2, [Int(err)], 0, room);
    NumericConversion(ErrnoFormat, Parsed(PlainSpec, 3, 0), [Int(err)], room);
    DecimalNumber(room, err);
  }

  // ---------------------------------------------------------------------------------
  // ngx_log_errno (ngx_log.c:119-142)
  // ---------------------------------------------------------------------------------

  /** Where ngx_log_errno starts writing: at buf, or after the "..." 47 bytes before last. */
  function ErrnoStart(n: nat, room: nat): nat
    requires room >= ErrnoRoom || n + room >= ErrnoRoom
  {
    if room >= ErrnoRoom then n else n + room - ErrnoRoom + |Dots|
  }

  /**
    ngx_log_errno(buf, last, err) on a buffer that holds `s` before buf and has `room`
    bytes from buf to last; the result is the buffer's content up to the pointer it
    returns. `desc` is what the C library describes err with (see Strerror).

    With fewer than 50 bytes left, the text is cut back to 50 bytes before last and "..."
    marks the cut; a buffer shorter than 50 bytes has no such position and the result is
    Undefined. Then come " (", the code, ": ", the description and ')' — each cut where
    the buffer ends, though the code itself always fits.
   */
  function LogErrno(s: seq<Byte>, room: nat, err: int, desc: Option<seq<Byte>>): (r: FmtResult)
    ensures r.Undefined? <==> room < ErrnoRoom && |s| + room < ErrnoRoom
    ensures r.Written? ==> |r.out| <= |s| + room
  {
    ErrnoWrite(s, room, ErrnoCode(err), desc)
  }

  /** ngx_log_errno with the code's text `code`, what "%d" prints for err. */
  function ErrnoWrite(s: seq<Byte>, room: nat, code: seq<Byte>, desc: Option<seq<Byte>>): (r: FmtResult)
    ensures r.Undefined? <==> room < ErrnoRoom && |s| + room < ErrnoRoom
    ensures r.Written? ==> |r.out| <= |s| + room
  {
    if room < ErrnoRoom && |s| + room < ErrnoRoom then Undefined
    else
      var base := ErrnoBase(s, room);
      Written(base + ErrnoTail(Opening(code), desc, |s| + room - |base|))
  }

  /** ngx_log.c:122-132: the text, or with fewer than 50 bytes left its cut and "..." 50 bytes before last. */
  function ErrnoBase(s: seq<Byte>, room: nat): (b: seq<Byte>)
    requires room >= ErrnoRoom || |s| + room >= ErrnoRoom
    ensures |b| == ErrnoStart(|s|, room) && |b| + ErrnoRoom - |Dots| <= |s| + room
  {
    if room < ErrnoRoom then s[..|s| + room - ErrnoRoom] + Dots else s
  }

  /**
    ngx_log.c:134-141 from buf: " (%d: " cut at the room (ngx_slprintf), the description
    in what it leaves (ngx_strerror), and ')' only when a byte is left after that.
    Together that is "(code: description)" cut where the buffer ends.
   */
  function ErrnoTail(open: seq<Byte>, desc: Option<seq<Byte>>, avail: nat): (x: seq<Byte>)
    ensures x == (open + Message(desc) + [CloseParen])[..Min(avail, |open| + |Message(desc)| + 1)]
  {
    var o := open[..Min(avail, |open|)];
    var m := Message(desc);
    var written := o + Strerror(desc, avail - |o|);
    var tail := open + m + [CloseParen];
    if |written| < avail then
      assert written + [CloseParen] == tail;
      written + [CloseParen]
    else
      assert written == tail[..avail];
      written
  }

  /**
    What ngx_log_errno leaves in the buffer: the text before buf, or with fewer than 50
    bytes left its first part and "..." 50 bytes before last; then, from there, the code
    whole and the rest of "(code: description)" cut where the buffer ends.
   */
  lemma LogErrnoText(s: seq<Byte>, room: nat, code: seq<Byte>, desc: Option<seq<Byte>>)
    requires |code| <= Int32Len
    requires room >= ErrnoRoom || |s| + room >= ErrnoRoom
    ensures var out := ErrnoWrite(s, room, code, desc).out;
            room >= ErrnoRoom ==> s <= out
    ensures var out := ErrnoWrite(s, room, code, desc).out;
            var k := |s| + room - ErrnoRoom;
            room < ErrnoRoom ==> k + |Dots| <= |out| && out[..k] == s[..k] && out[k..k + |Dots|] == Dots
    ensures var out := ErrnoWrite(s, room, code, desc).out;
            var e := ErrnoStart(|s|, room);
            var tail := Opening(code) + Message(desc) + [CloseParen];
            && e + |Opening(code)| <= |out|
            && out[e..] == tail[..Min(|s| + room - e, |tail|)]
  {
    var out := ErrnoWrite(s, room, code, desc).out;
    var base := ErrnoBase(s, room);
    var x := ErrnoTail(Opening(code), desc, |s| + room - |base|);
    assert out == base + x;
    assert out[|base|..] == x;
    if room < ErrnoRoom {
      var k := |s| + room - ErrnoRoom;
      assert out[..k] == base[..k] == s[..k];
      assert out[k..k + |Dots|] == base[k..] == Dots;
    } else {
      assert out[..|s|] == s;
    }
  }

  // ---------------------------------------------------------------------------------
  // ngx_log_stderr (ngx_log.c:72-117)
  // ---------------------------------------------------------------------------------

  /**
    The line ngx_log_stderr writes, given `msg`, what ngx_vslprintf printed after
    "nginx: " (at most the rest of the NGX_MAX_ERROR_STR buffer): the error's text when
    err is not 0, then a line feed, which takes the place of the last byte when the
    buffer is full.
   */
  function LogLine(err: int, msg: seq<Byte>, desc: Option<seq<Byte>>): (line: seq<Byte>)
    requires |msg| <= MaxErrorStr - |NginxTag|
    ensures 1 <= |line| <= MaxErrorStr && line[|line| - 1] == Lf && NginxTag <= line
    ensures Signed32(err) != 0 ==>
              var s := NginxTag + msg;
              var e := ErrnoStart(|s|, MaxErrorStr - |s|);
              var open := Opening(ErrnoCode(err));
              && s[..Min(|s|, MaxErrorStr - ErrnoRoom)] <= line
              && e + |open| < |line|
              && open <= line[e..]
  {
    var s := NginxTag + msg;
    assert s[..|NginxTag|] == NginxTag;
    if Signed32(err) != 0 then
      var line := ErrnoLine(s, ErrnoCode(err), desc);
      PrefixWithin(NginxTag, s, Min(|s|, MaxErrorStr - ErrnoRoom), line);
      line
    else
      Terminated(s)
  }

  /**
    ngx_log.c:106-114 when err is not 0: ngx_log_errno, printing `code` for it, after the
    text `s` in the NGX_MAX_ERROR_STR buffer, cut one byte short of the buffer's end, and
    a line feed. The code appears whole where ngx_log_errno starts writing, and the text
    stays up to 50 bytes before the end.
   */
  function ErrnoLine(s: seq<Byte>, code: seq<Byte>, desc: Option<seq<Byte>>): (line: seq<Byte>)
    requires |s| <= MaxErrorStr && |code| <= Int32Len
    ensures 1 <= |line| <= MaxErrorStr && line[|line| - 1] == Lf
    ensures var e := ErrnoStart(|s|, MaxErrorStr - |s|);
            e + |Opening(code)| < |line| && Opening(code) <= line[e..]
    ensures s[..Min(|s|, MaxErrorStr - ErrnoRoom)] <= line
  {
    var u := ErrnoWrite(s, MaxErrorStr - |s|, code, desc).out;
    LogErrnoText(s, MaxErrorStr - |s|, code, desc);
    LineFromText(s, MaxErrorStr - |s|, code, desc, u);
    Terminated(u)
  }

  /** ngx_log.c:110-114: the text, one byte short of the buffer when it fills it, and a line feed. */
  function Terminated(u: seq<Byte>): (line: seq<Byte>)
    ensures |line| == Min(|u|, MaxErrorStr - LinefeedSize) + 1 && line[|line| - 1] == Lf
    ensures line[..|line| - 1] <= u
  {
    u[..Min(|u|, MaxErrorStr - LinefeedSize)] + [Lf]
  }

  /** What LogErrnoText says of u, the text ngx_log_errno leaves, survives in Terminated(u). */
  lemma LineFromText(s: seq<Byte>, room: nat, code: seq<Byte>, desc: Option<seq<Byte>>, u: seq<Byte>)
    requires |code| <= Int32Len && |s| + room == MaxErrorStr
    requires room >= ErrnoRoom ==> s <= u
    requires var k := |s| + room - ErrnoRoom;
             room < ErrnoRoom ==> k + |Dots| <= |u| && u[..k] == s[..k] && u[k..k + |Dots|] == Dots
    requires var e := ErrnoStart(|s|, room);
             var tail := Opening(code) + Message(desc) + [CloseParen];
             && e + |Opening(code)| <= |u|
             && u[e..] == tail[..Min(|s| + room - e, |tail|)]
    ensures var e := ErrnoStart(|s|, room);
            e + |Opening(code)| < |Terminated(u)| && Opening(code) <= Terminated(u)[e..]
    ensures s[..Min(|s|, MaxErrorStr - ErrnoRoom)] <= Terminated(u)
  {
    var e := ErrnoStart(|s|, room);
    var k := Min(|s|, MaxErrorStr - ErrnoRoom);
    var tail := Opening(code) + Message(desc) + [CloseParen];
    CutHead(u, e, tail, Min(|s| + room - e, |tail|), Opening(code));
    if room >= ErrnoRoom {
      assert u[..k] == s[..k];
    }
    LineKeeps(u, e, Opening(code), s, k);
  }

  /** ngx_log_stderr(err, fmt, ...): the line it writes, or Undefined when formatting is. */
  function LogStderr(err: int, fmt: seq<Byte>, args: seq<Arg>, desc: Option<seq<Byte>>): (r: FmtResult)
    ensures r.Written? ==> 1 <= |r.out| <= MaxErrorStr && r.out[|r.out| - 1] == Lf && NginxTag <= r.out
  {
    match Vslprintf(fmt, 0, args, 0, MaxErrorStr - |NginxTag|)
    case Undefined => Undefined
    case Written(msg) => Written(LogLine(err, msg, desc))
  }

  /** Without an error code the line is the message, cut one byte short of the buffer, and a line feed. */
  lemma LineWithoutErrno(err: int, msg: seq<Byte>, desc: Option<seq<Byte>>)
    requires |msg| <= MaxErrorStr - |NginxTag| && Signed32(err) == 0
    ensures var line := LogLine(err, msg, desc);
            && |line| == Min(|NginxTag| + |msg|, MaxErrorStr - LinefeedSize) + 1
            && line[..|line| - 1] <= NginxTag + msg
  {
  }

  /** What follows e in u is a cut of tail at c; a prefix of tail no longer than c is then at e. */
  lemma CutHead(u: seq<Byte>, e: nat, tail: seq<Byte>, c: nat, open: seq<Byte>)
    requires e <= |u| && c <= |tail| && u[e..] == tail[..c]
    requires |open| <= c && open <= tail
    ensures e + |open| <= |u| && u[e..e + |open|] == open
  {
    assert u[e..e + |open|] == u[e..][..|open|];
  }

  /** A prefix of the first k bytes of s is a prefix of whatever starts with them. */
  lemma PrefixWithin(t: seq<Byte>, s: seq<Byte>, k: nat, line: seq<Byte>)
    requires t <= s && |t| <= k <= |s| && s[..k] <= line
    ensures t <= line
  {
    assert t == s[..k][..|t|];
  }

  /** Terminated keeps what u holds before the buffer's last byte. */
  lemma LineKeeps(u: seq<Byte>, e: nat, open: seq<Byte>, s: seq<Byte>, k: nat)
    requires e + |open| <= |u| && e + |open| < MaxErrorStr - LinefeedSize && u[e..e + |open|] == open
    requires k <= |u| && k <= |s| && k < MaxErrorStr - LinefeedSize && u[..k] == s[..k]
    ensures e + |open| < |Terminated(u)| && open <= Terminated(u)[e..]
    ensures s[..k] <= Terminated(u)
  {
    var line := Terminated(u);
    assert line[e..e + |open|] == u[e..e + |open|];
    assert line[e..][..|open|] == line[e..e + |open|];
    assert line[..k] == u[..k];
  }

  /** When everything fits, the line is the whole text: message, " (code: description)", line feed. */
  lemma LineInFull(err: int, msg: seq<Byte>, desc: Option<seq<Byte>>)
    requires Signed32(err) != 0
    requires |NginxTag| + |msg| + ErrnoRoom <= MaxErrorStr
    requires |NginxTag| + |msg| + |Opening(ErrnoCode(err))| + |Message(desc)| + 1 <= MaxErrorStr - LinefeedSize
    ensures LogLine(err, msg, desc)
              == (NginxTag + msg) + (Opening(ErrnoCode(err)) + Message(desc) + [CloseParen]) + [Lf]
  {
    ErrnoLineInFull(NginxTag + msg, ErrnoCode(err), desc);
  }

  /** ErrnoLine when the whole text fits: nothing is cut. */
  lemma ErrnoLineInFull(s: seq<Byte>, code: seq<Byte>, desc: Option<seq<Byte>>)
    requires |code| <= Int32Len
    requires |s| + ErrnoRoom <= MaxErrorStr
    requires |s| + |Opening(code)| + |Message(desc)| + 1 <= MaxErrorStr - LinefeedSize
    ensures ErrnoLine(s, code, desc) == s + (Opening(code) + Message(desc) + [CloseParen]) + [Lf]
  {
    var u := ErrnoWrite(s, MaxErrorStr - |s|, code, desc).out;
    LogErrnoText(s, MaxErrorStr - |s|, code, desc);
    UncutLine(s, Opening(code) + Message(desc) + [CloseParen], u);
  }

  /** A text that does not fill the buffer is terminated whole. */
  lemma UncutLine(s: seq<Byte>, tail: seq<Byte>, u: seq<Byte>)
    requires |s| + |tail| <= MaxErrorStr - LinefeedSize
    requires s <= u && |s| <= |u| && u[|s|..] == tail[..Min(MaxErrorStr - |s|, |tail|)]
    ensures Terminated(u) == s + tail + [Lf]
  {
    assert u[..|s|] == s;
    assert u == u[..|s|] + u[|s|..];
  }

  // ---------------------------------------------------------------------------------
  // The error log's path in ngx_log_init (ngx_log.c:144-265)
  // ---------------------------------------------------------------------------------

  /** The bytes at a C string pointer: its text and, after it, a NUL. */
  predicate CString(s: seq<Byte>)
  {
    NulIndex(s) < |s|
  }

  /** Bytes among which there is no NUL. */
  predicate NulFree(t: seq<Byte>)
  {
    forall j | 0 <= j < |t| :: t[j] != Nul
  }

  /** A C string's text, the bytes before its NUL (ngx_strlen of it is their number). */
  function Str(s: seq<Byte>): (t: seq<Byte>)
    requires CString(s)
    ensures t <= s && NulFree(t)
  {
    s[..NulIndex(s)]
  }

  /** ngx_log.c:233-235: the '/' put after a prefix that does not already end in one. */
  function Separator(p: seq<Byte>): (sep: seq<Byte>)
    requires |p| >= 1
    ensures |sep| <= 1 && NulFree(sep)
    ensures (p + sep)[|p + sep| - 1] == Slash
    ensures sep == [] <==> p[|p| - 1] == Slash
  {
    if p[|p| - 1] == Slash then [] else [Slash]
  }

  /**
    ngx_log.c:220-241: the name built in the plen + nlen + 2 bytes malloc returns — the
    prefix's plen bytes, its separator, and ngx_cpystrn of the error log's name with its
    NUL.
   */
  function JoinPath(prefix: seq<Byte>, name: seq<Byte>): (path: seq<Byte>)
    requires CString(prefix) && CString(name) && NulIndex(prefix) >= 1
    ensures |path| <= NulIndex(prefix) + NulIndex(name) + 2
  {
    Str(prefix) + Separator(Str(prefix)) + CpyStrn(name, NulIndex(name) + 1).written
  }

  /**
    The joined path is a C string whose text is the prefix, at most one '/' that makes
    it end in one, and the name.
   */
  lemma JoinPathText(prefix: seq<Byte>, name: seq<Byte>)
    requires CString(prefix) && CString(name) && NulIndex(prefix) >= 1
    ensures CString(JoinPath(prefix, name))
    ensures Str(JoinPath(prefix, name)) == Str(prefix) + Separator(Str(prefix)) + Str(name)
  {
    var head := Str(prefix) + Separator(Str(prefix));
    CopiedWhole(name);
    SeparatedNulFree(Str(prefix));
    assert JoinPath(prefix, name) == head + (Str(name) + [Nul]);
    NulIndexAfter(head, Str(name));
  }

  /** ngx_cpystrn with n one past the name's length copies the whole name and its NUL. */
  lemma CopiedWhole(name: seq<Byte>)
    requires CString(name)
    ensures CpyStrn(name, NulIndex(name) + 1).written == Str(name) + [Nul]
  {
    var n := NulIndex(name);
    assert Min(n, n) == n;
    assert CpyStrn(name, n + 1) == Copy(name[..n] + [Nul], n);
  }

  /** A NUL-free prefix with its separator is still NUL-free. */
  lemma SeparatedNulFree(p: seq<Byte>)
    requires |p| >= 1 && NulFree(p)
    ensures NulFree(p + Separator(p))
  {
    var head := p + Separator(p);
    forall j | 0 <= j < |head|
      ensures head[j] != Nul
    {
      if j < |p| {
        assert head[j] == p[j];
      } else {
        assert head[j] == Separator(p)[j - |p|];
      }
    }
  }

  /** The NUL that ends a text appended to NUL-free bytes is the first NUL. */
  lemma NulIndexAfter(head: seq<Byte>, t: seq<Byte>)
    requires NulFree(head) && NulFree(t)
    ensures NulIndex(head + (t + [Nul])) == |head| + |t|
    ensures (head + (t + [Nul]))[..|head| + |t|] == head + t
  {
    var s := head + (t + [Nul]);
    var k := |head| + |t|;
    JoinAssociates(head, t, [Nul]);
    assert s[..k] == head + t;
    assert s[k] == Nul;
    forall j | 0 <= j < k
      ensures s[j] != Nul
    {
      if j < |head| {
        assert s[j] == head[j];
      } else {
        assert s[j] == t[j - |head|];
      }
    }
    NulIndexFirst(s, k);
  }

  /** Joining three byte sequences does not depend on which two are joined first. */
  lemma JoinAssociates(a: seq<Byte>, b: seq<Byte>, c: seq<Byte>)
    ensures a + (b + c) == (a + b) + c
  {
  }

  /** The first NUL of s is at k when s[k] is NUL and none comes before it. */
  lemma {:induction false} NulIndexFirst(s: seq<Byte>, k: nat)
    requires k < |s| && s[k] == Nul && forall j | 0 <= j < k :: s[j] != Nul
    ensures NulIndex(s) == k
    decreases k
  {
    if k > 0 {
      assert s[0] != Nul;
      NulIndexFirst(s[1..], k - 1);
    }
  }

  /** Where ngx_log_init sends the log. */
  datatype LogFile = Stderr | File(path: seq<Byte>)

  /** What ngx_log_init returns: the log, or NULL when malloc fails. */
  datatype InitResult = Log(file: LogFile) | NoMemory

  /**
    ngx_log_init(prefix, error_log) with the configure-time NGX_ERROR_LOG_PATH
    (`defaultPath`) and NGX_PREFIX (`ngxPrefix`, None when it is not defined); `mallocOk`
    and `opens` say whether malloc and ngx_open_file succeed. An empty name selects
    stderr; a relative name is joined to the prefix when there is a non-empty one; a file
    that does not open leaves the log on stderr.
   */
  function LogInit(prefix: Option<seq<Byte>>, errorLog: Option<seq<Byte>>, defaultPath: seq<Byte>,
                   ngxPrefix: Option<seq<Byte>>, mallocOk: bool, opens: bool): (r: InitResult)
    requires prefix.Some? ==> CString(prefix.value)
    requires errorLog.Some? ==> CString(errorLog.value)
    requires ngxPrefix.Some? ==> CString(ngxPrefix.value)
    requires CString(defaultPath)
    ensures var name := if errorLog.Some? then errorLog.value else defaultPath;
            && (r == NoMemory ==> !mallocOk && Str(name) != [] && name[0] != Slash)
            && (Str(name) == [] ==> r == Log(Stderr))
            && (r.Log? && r.file.File? ==> opens && CString(r.file.path))
            && (r.Log? && r.file.File? && name[0] == Slash ==> r.file.path == name)
  {
    var name := if errorLog.Some? then errorLog.value else defaultPath;
    if NulIndex(name) == 0 then Log(Stderr)
    else
      var pre := if prefix.Some? then prefix else ngxPrefix;
      if name[0] == Slash || pre.None? || NulIndex(pre.value) == 0 then Opened(name, opens)
      else if !mallocOk then NoMemory
      else
        JoinPathText(pre.value, name);
        Opened(JoinPath(pre.value, name), opens)
  }

  /** ngx_log.c:253-258: the file when it opens, stderr when it does not. */
  function Opened(path: seq<Byte>, opens: bool): InitResult
  {
    if opens then Log(File(path)) else Log(Stderr)
  }

  /**
    A relative name under a non-empty prefix becomes the prefix's path with one '/' and
    the name after it; the name given with -p takes precedence over NGX_PREFIX.
   */
  lemma RelativeNameJoined(prefix: Option<seq<Byte>>, errorLog: Option<seq<Byte>>, defaultPath: seq<Byte>,
                           ngxPrefix: Option<seq<Byte>>)
    requires prefix.Some? ==> CString(prefix.value)
    requires errorLog.Some? ==> CString(errorLog.value)
    requires ngxPrefix.Some? ==> CString(ngxPrefix.value)
    requires CString(defaultPath)
    requires var name := if errorLog.Some? then errorLog.value else defaultPath;
             Str(name) != [] && name[0] != Slash
    requires var pre := if prefix.Some? then prefix else ngxPrefix;
             pre.Some? && Str(pre.value) != []
    ensures var name := if errorLog.Some? then errorLog.value else defaultPath;
            var p := Str(if prefix.Some? then prefix.value else ngxPrefix.value);
            var r := LogInit(prefix, errorLog, defaultPath, ngxPrefix, true, true);
            && r.Log? && r.file.File? && CString(r.file.path)
            && Str(r.file.path) == p + Separator(p) + Str(name)
  {
    var name := if errorLog.Some? then errorLog.value else defaultPath;
    var pre := if prefix.Some? then prefix else ngxPrefix;
    assert LogInit(prefix, errorLog, defaultPath, ngxPrefix, true, true) == Log(File(JoinPath(pre.value, name)));
    JoinPathText(pre.value, name);
  }
}
