/** The per-descriptor output buffers of jbash.environment.JProcess.  Every
    open file descriptor maps to a FileBuffer; send appends to it and flushes
    once it grows past 80 characters, consume takes its text, and fdFlush
    drops (0), prints (1), prints in red (2) or appends to the buffer's file
    (other descriptors).  What reaches the screen is kept as a ghost trace. */
module Process {
  import opened Outcomes
  import opened JavaText
  import opened FileSystem
  import opened Environment

  const MaxBufSize: nat := 80

  /** The ANSI escapes print wraps standard-error text in. */
  const RedOn: string := "\U{1B}[31m"
  const RedOff: string := "\U{1B}[0m"

  function NoSuchBuffer(fd: int): string
  {
    "No such buffer associated with " + IntToString(fd) + "\n"
  }

  function NotWritable(fd: int): string
  {
    "File descriptor " + IntToString(fd) + " not open for writing\n"
  }

  /** Optional<String>.orElse. */
  function OrElse(o: Option<string>, other: string): string
  {
    if o.Some? then o.value else other
  }

  /** String concatenation of an Optional<String>: its toString. */
  function OptionalText(o: Option<string>): string
  {
    if o.Some? then "Optional[" + o.value + "]" else "Optional.empty"
  }

  /** String concatenation of a possibly null String. */
  function ContentsText(o: Option<string>): string
  {
    if o.Some? then o.value else "null"
  }

  /** What a descriptor's buffer holds: its mode and its text. */
  datatype Slot = Slot(mode: string, buffer: string)

  /** The buffers, seen as values, by descriptor. */
  type View = map<int, Slot>

  /** The outcome of a send or flush on a view: the new buffers, the text
      printed, and the text appended to the descriptor's file when there is one. */
  datatype Effect = Effect(buffers: View, output: string, appended: Option<string>)

  /** What consume(fd) returns. */
  function Taken(fd: int, v: View): Option<string>
  {
    if fd in v then Some(v[fd].buffer) else None
  }

  /** The buffers after consume(fd). */
  function Cleared(fd: int, v: View): (r: View)
    ensures r.Keys == v.Keys
  {
    if fd in v then v[fd := v[fd].(buffer := "")] else v
  }

  /** 0, 1 and 2 flush without recursion; every other descriptor, negative
      ones included, may report an error on 2. */
  function Rank(fd: int): nat
  {
    if 0 <= fd <= 2 then 0 else 1
  }

  /** send(fd, msg) on a view. */
  function SendSpec(fd: int, msg: string, v: View): Effect
    decreases Rank(fd), 2
  {
    if fd !in v then Effect(v, "", None)
    else
      var b := v[fd := v[fd].(buffer := v[fd].buffer + msg)];
      if |b[fd].buffer| > MaxBufSize then FlushSpec(fd, b) else Effect(b, "", None)
  }

  /** fdFlush(fd) on a view. */
  function FlushSpec(fd: int, v: View): Effect
    decreases Rank(fd), 1
  {
    if fd == 0 then Effect(Cleared(0, v), "", None)
    else if fd == 1 then Effect(Cleared(1, v), OrElse(Taken(1, v), ""), None)
    else if fd == 2 then Effect(Cleared(2, v), RedOn + OrElse(Taken(2, v), "") + RedOff, None)
    else if fd !in v then ErrorSpec(NoSuchBuffer(fd), v)
    else if 'w' !in v[fd].mode then ErrorSpec(NotWritable(fd), v)
    else Effect(Cleared(fd, v), "", Some(OptionalText(Taken(fd, v))))
  }

  /** send(2, msg) followed by fdFlush(2). */
  function ErrorSpec(msg: string, v: View): Effect
    decreases 1, 0
  {
    var sent := SendSpec(2, msg, v);
    var flushed := FlushSpec(2, sent.buffers);
    Effect(flushed.buffers, sent.output + flushed.output, None)
  }

  /** Text printed to standard error: wrapped in the red escapes. */
  function Red(t: string): (r: string)
    ensures |r| == |t| + |RedOn| + |RedOff|
    ensures r[|RedOn|..|RedOn| + |t|] == t
  {
    RedOn + t + RedOff
  }

  /** send, fdFlush and the error path never add or drop a descriptor, and
      touch no buffer but their own descriptor's and standard error's. */
  lemma {:induction false} SendFrame(fd: int, msg: string, v: View)
    ensures var e := SendSpec(fd, msg, v);
      e.buffers.Keys == v.Keys &&
      (forall k :: k in v && k != fd && k != 2 ==> e.buffers[k] == v[k]) &&
      (e.appended.Some? ==> fd in v && !(0 <= fd <= 2))
    decreases Rank(fd), 2
  {
    if fd in v {
      var b := v[fd := v[fd].(buffer := v[fd].buffer + msg)];
      if |b[fd].buffer| > MaxBufSize {
        FlushFrame(fd, b);
      }
    }
  }

  lemma {:induction false} FlushFrame(fd: int, v: View)
    ensures var e := FlushSpec(fd, v);
      e.buffers.Keys == v.Keys &&
      (forall k :: k in v && k != fd && k != 2 ==> e.buffers[k] == v[k]) &&
      (e.appended.Some? ==> fd in v && !(0 <= fd <= 2))
    decreases Rank(fd), 1
  {
    if !(0 <= fd <= 2) && fd !in v {
      ErrorFrame(NoSuchBuffer(fd), v);
    } else if !(0 <= fd <= 2) && 'w' !in v[fd].mode {
      ErrorFrame(NotWritable(fd), v);
    }
  }

  lemma {:induction false} ErrorFrame(msg: string, v: View)
    ensures var e := ErrorSpec(msg, v);
      e.buffers.Keys == v.Keys &&
      (forall k :: k in v && k != 2 ==> e.buffers[k] == v[k]) &&
      e.appended.None?
    decreases 1, 0
  {
    SendFrame(2, msg, v);
    FlushFrame(2, SendSpec(2, msg, v).buffers);
  }

  /** The error path: the message reaches the screen in red, preceded by
      whatever standard error held, and standard error is left empty; when
      the pending text passes 80 characters it is printed by send already and
      the flush prints an empty red span.  Without a standard-error buffer the
      message is lost and only the two escapes are printed. */
  lemma ErrorOutput(msg: string, v: View)
    ensures 2 !in v ==> ErrorSpec(msg, v) == Effect(v, RedOn + RedOff, None)
    ensures 2 in v ==> var t := v[2].buffer + msg;
      ErrorSpec(msg, v) ==
        Effect(v[2 := Slot(v[2].mode, "")], if |t| > MaxBufSize then Red(t) + Red("") else Red(t), None)
  {
    if 2 in v {
      var t := v[2].buffer + msg;
      var b := v[2 := v[2].(buffer := t)];
      if |t| > MaxBufSize {
        assert SendSpec(2, msg, v) == Effect(b[2 := Slot(v[2].mode, "")], Red(t), None);
      } else {
        assert SendSpec(2, msg, v) == Effect(b, "", None);
      }
    }
  }

  /** send on standard output loses nothing: what it prints followed by what
      stays buffered is the old buffer followed by the message, and at most
      80 characters stay buffered. */
  lemma SendOutput(msg: string, v: View)
    requires 1 in v
    ensures var e := SendSpec(1, msg, v);
      e.output + e.buffers[1].buffer == v[1].buffer + msg &&
      |e.buffers[1].buffer| <= MaxBufSize &&
      e.buffers == v[1 := Slot(v[1].mode, e.buffers[1].buffer)] &&
      e.appended.None?
  {
  }

  /** send on standard error: the pending text is printed in red once it
      passes 80 characters, and buffered otherwise. */
  lemma SendError(msg: string, v: View)
    requires 2 in v
    ensures var t := v[2].buffer + msg; var e := SendSpec(2, msg, v);
      if |t| > MaxBufSize then e == Effect(v[2 := Slot(v[2].mode, "")], Red(t), None)
      else e == Effect(v[2 := Slot(v[2].mode, t)], "", None)
  {
  }

  /** send on a writable file descriptor: the pending text is appended to the
      file, in the Optional[...] form concatenation gives it, once it passes
      80 characters, and buffered otherwise; nothing reaches the screen. */
  lemma SendToFile(fd: int, msg: string, v: View)
    requires !(0 <= fd <= 2) && fd in v && 'w' in v[fd].mode
    ensures var t := v[fd].buffer + msg; var e := SendSpec(fd, msg, v);
      if |t| > MaxBufSize then e == Effect(v[fd := Slot(v[fd].mode, "")], "", Some("Optional[" + t + "]"))
      else e == Effect(v[fd := Slot(v[fd].mode, t)], "", None)
  {
  }

  /** send on a file descriptor not open for writing keeps everything it was
      sent, however long: the buffer is never emptied, and each send past 80
      characters reports the descriptor as not writable once more. */
  lemma SendToReadOnly(fd: int, msg: string, v: View)
    requires !(0 <= fd <= 2) && fd in v && 'w' !in v[fd].mode
    ensures var t := v[fd].buffer + msg; var e := SendSpec(fd, msg, v);
      e.buffers.Keys == v.Keys && e.buffers[fd] == Slot(v[fd].mode, t) && e.appended.None? &&
      (|t| > MaxBufSize ==> e == ErrorSpec(NotWritable(fd), v[fd := Slot(v[fd].mode, t)])) &&
      (|t| <= MaxBufSize ==> e.output == "")
  {
    var t := v[fd].buffer + msg;
    var b := v[fd := Slot(v[fd].mode, t)];
    if |t| > MaxBufSize {
      ErrorFrame(NotWritable(fd), b);
    }
  }

  /** The error message for descriptor 7. */
  lemma NoSuchBufferSeven()
    ensures NoSuchBuffer(7) == "No such buffer associated with " + "7\n"
  {
    assert IntToString(7) == "7";
  }

  /** fdFlush on a descriptor above 2 with no buffer reports "No such buffer"
      on standard error: the message follows standard error's pending text in
      red and standard error is left empty; every other buffer stays as it was
      and no file is written. */
  lemma FlushUnmapped(fd: int, v: View)
    requires !(0 <= fd <= 2) && fd !in v
    ensures 2 !in v ==> FlushSpec(fd, v) == Effect(v, RedOn + RedOff, None)
    ensures 2 in v ==> var t := v[2].buffer + NoSuchBuffer(fd);
      FlushSpec(fd, v) ==
        Effect(v[2 := Slot(v[2].mode, "")], if |t| > MaxBufSize then Red(t) + Red("") else Red(t), None)
  {
    ErrorOutput(NoSuchBuffer(fd), v);
  }

  class FileBuffer {
    var file: FileSystemObject?
    var offset: int
    var mode: string
    var buffer: string

    /** The FileBuffer constructor, given the file its path names (or null). */
    constructor (file: FileSystemObject?, mode: string)
      ensures this.file == file && this.mode == mode && offset == 0 && buffer == ""
    {
      this.file := file;
      this.mode := mode;
      offset := 0;
      buffer := "";
    }
  }

  class JProcess {
    var fds: map<int, FileBuffer>
    const env: JEnvironment
    /** Everything printed to the screen so far. */
    ghost var console: string

    constructor (env: JEnvironment)
      ensures this.env == env && fds == map[] && console == ""
    {
      this.env := env;
      fds := map[];
      console := "";
    }

    /** Distinct descriptors have distinct buffers, and every buffer names a file. */
    ghost predicate Valid()
      reads this, fds.Values
    {
      (forall j, k :: j in fds && k in fds && j != k ==> fds[j] != fds[k]) &&
      (forall k :: k in fds ==> fds[k].file != null && !fds[k].file.isDirectory)
    }

    ghost function View(): View
      reads this, fds.Values
    {
      map k | k in fds :: Slot(fds[k].mode, fds[k].buffer)
    }

    ghost function Files(): set<FileSystemObject?>
      reads this, fds.Values
    {
      set k | k in fds :: fds[k].file
    }

    /** The buffers after fds[fd]'s text is set to text, the others untouched. */
    lemma ViewAfterWrite(fd: int, old_v: View, text: string)
      requires Valid() && fd in fds && old_v.Keys == fds.Keys
      requires forall k :: k in fds && k != fd ==> Slot(fds[k].mode, fds[k].buffer) == old_v[k]
      requires fds[fd].mode == old_v[fd].mode && fds[fd].buffer == text
      ensures View() == old_v[fd := old_v[fd].(buffer := text)]
    {
    }

    /** consume: returns the buffer's text and leaves it empty; an unmapped
        descriptor gives empty and changes nothing. */
    method Consume(fd: int) returns (r: Option<string>)
      requires Valid()
      modifies fds.Values`buffer
      ensures r == Taken(fd, old(View()))
      ensures View() == Cleared(fd, old(View()))
    {
      if fd !in fds {
        return None;
      }
      var fbuf := fds[fd];
      var msg := fbuf.buffer;
      fbuf.buffer := "";
      ViewAfterWrite(fd, old(View()), "");
      return Some(msg);
    }

    /** send. */
    method Send(fd: int, msg: string)
      requires Valid()
      modifies this`console, fds.Values`buffer, Files()`contents
      ensures var e := SendSpec(fd, msg, old(View()));
        View() == e.buffers && console == old(console) + e.output &&
        (e.appended.Some? ==> fd in fds && fds[fd].file.contents == Some(ContentsText(old(fds[fd].file.contents)) + e.appended.value)) &&
        (forall f :: f in Files() && f != null && (e.appended.None? || f != fds[fd].file) ==> f.contents == old(f.contents))
      decreases Rank(fd), 2
    {
      if fd !in fds {
        return;
      }
      var fbuf := fds[fd];
      fbuf.buffer := fbuf.buffer + msg;
      ViewAfterWrite(fd, old(View()), old(fbuf.buffer) + msg);
      if |fbuf.buffer| > MaxBufSize {
        FdFlush(fd);
      }
    }

    /** fdFlush. */
    method FdFlush(fd: int)
      requires Valid()
      modifies this`console, fds.Values`buffer, Files()`contents
      ensures var e := FlushSpec(fd, old(View()));
        View() == e.buffers && console == old(console) + e.output &&
        (e.appended.Some? ==> fd in fds && fds[fd].file.contents == Some(ContentsText(old(fds[fd].file.contents)) + e.appended.value)) &&
        (forall f :: f in Files() && f != null && (e.appended.None? || f != fds[fd].file) ==> f.contents == old(f.contents))
      decreases Rank(fd), 1
    {
      if 0 <= fd <= 2 {
        FlushStandard(fd);
      } else if fd !in fds {
        ReportError(NoSuchBuffer(fd));
      } else if 'w' !in fds[fd].mode {
        ReportError(NotWritable(fd));
      } else {
        AppendToFile(fd);
      }
    }

    /** fdFlush on 0, 1 and 2: standard input is dropped, standard output
        printed, standard error printed in red. */
    method FlushStandard(fd: int)
      requires Valid() && 0 <= fd <= 2
      modifies this`console, fds.Values`buffer
      ensures var e := FlushSpec(fd, old(View()));
        View() == e.buffers && console == old(console) + e.output && e.appended.None?
    {
      var m := Consume(fd);
      if fd == 1 {
        console := console + OrElse(m, "");
      } else if fd == 2 {
        console := console + RedOn + OrElse(m, "") + RedOff;
      }
    }

    /** The last step of fdFlush on a writable descriptor: the buffer's text,
        as an Optional, is appended to the file's contents. */
    method AppendToFile(fd: int)
      requires Valid() && fd in fds
      modifies fds.Values`buffer, Files()`contents
      ensures View() == Cleared(fd, old(View()))
      ensures fds[fd].file.contents == Some(ContentsText(old(fds[fd].file.contents)) + OptionalText(Taken(fd, old(View()))))
      ensures forall f :: f in Files() && f != null && f != fds[fd].file ==> f.contents == old(f.contents)
    {
      var fbuf := fds[fd];
      var before := fbuf.file.GetContents();
      var m := Consume(fd);
      fbuf.file.SetContents(ContentsText(before) + OptionalText(m));
    }

    /** The error path of fdFlush: send(2, msg) and then fdFlush(2). */
    method ReportError(msg: string)
      requires Valid()
      modifies this`console, fds.Values`buffer, Files()`contents
      ensures var e := ErrorSpec(msg, old(View()));
        View() == e.buffers && console == old(console) + e.output &&
        (forall f :: f in Files() && f != null ==> f.contents == old(f.contents))
      decreases 1, 0
    {
      Send(2, msg);
      FdFlush(2);
    }
  }
}
