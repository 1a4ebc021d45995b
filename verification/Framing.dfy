/** The read buffer of a TCP connection: a window that slides, grows and shrinks (lmserver/lmserver.c,
    conn_shrink, try_read_command, try_read_network and the conn_read state of drive_machine). */
module Framing {
  import opened Lines

  const DATA_BUFFER_SIZE: nat := 2048
  const READ_BUFFER_HIGHWAT: nat := 8192

  /** What the socket has to offer, in order; an empty list has nothing to offer now. */
  datatype Arrival = Data(bytes: seq<byte>) | WouldBlock | Closed | Failed

  predicate Ends(a: Arrival) {
    a.Closed? || a.Failed?
  }

  /** The bytes that arrive before the connection ends, however they are cut into pieces. */
  function Stream(arrivals: seq<Arrival>): seq<byte> {
    if arrivals == [] || Ends(arrivals[0]) then []
    else (if arrivals[0].Data? then arrivals[0].bytes else []) + Stream(arrivals[1..])
  }

  function Weight(arrivals: seq<Arrival>): nat {
    if arrivals == [] then 0 else 1 + (if arrivals[0].Data? then |arrivals[0].bytes| else 0) + Weight(arrivals[1..])
  }

  ghost predicate NoEmptyData(arrivals: seq<Arrival>) {
    forall i :: 0 <= i < |arrivals| && arrivals[i].Data? ==> arrivals[i].bytes != []
  }

  lemma {:induction false} StreamTail(a: Arrival, rest: seq<Arrival>)
    ensures Stream([a] + rest) == if Ends(a) then [] else (if a.Data? then a.bytes else []) + Stream(rest)
    ensures a.WouldBlock? ==> Stream([a] + rest) == Stream(rest)
    ensures Weight([a] + rest) == 1 + (if a.Data? then |a.bytes| else 0) + Weight(rest)
  {
    assert ([a] + rest)[1..] == rest;
  }

  // ---------------------------------------------------------------- when lines are lost

  /** What a read of at most avail bytes receives, and what is left for later. */
  function Got(arrivals: seq<Arrival>, avail: nat): (g: seq<byte>)
    requires arrivals != [] && arrivals[0].Data?
    ensures |g| <= avail
  {
    var bytes := arrivals[0].bytes;
    if |bytes| < avail then bytes else bytes[..avail]
  }

  function Later(arrivals: seq<Arrival>, avail: nat): (rest: seq<Arrival>)
    requires arrivals != [] && arrivals[0].Data? && avail > 0
    ensures Weight(rest) < Weight(arrivals)
  {
    var bytes := arrivals[0].bytes;
    if |bytes| <= avail then arrivals[1..]
    else
      StreamTail(Data(bytes[avail..]), arrivals[1..]);
      [Data(bytes[avail..])] + arrivals[1..]
  }

  /** The room for the window: a full buffer is doubled before a read. */
  function Room(size: nat, window: seq<byte>): nat {
    if |window| >= size then 2 * size else size
  }

  /** The size of the buffer once all commands in the window have been handed out. */
  function SizeAfter(size: nat, window: seq<byte>): nat {
    if HasNewline(window) && size > READ_BUFFER_HIGHWAT && |Rest(window)| < DATA_BUFFER_SIZE then DATA_BUFFER_SIZE else size
  }

  /** Whether the connection ends with complete lines in the window: reading goes on without a look at the window
      as long as reads fill the buffer, and at the end nobody looks any more. */
  predicate Loses(size: nat, window: seq<byte>, arrivals: seq<Arrival>)
    requires |window| <= size && size >= DATA_BUFFER_SIZE
    decreases Weight(arrivals), 0
  {
    if arrivals == [] then false
    else if Ends(arrivals[0]) then HasNewline(window)
    else
      var room := Room(size, window);
      if arrivals[0].WouldBlock? then LosesLater(room, window, arrivals[1..])
      else
        var avail := room - |window|;
        var more := window + Got(arrivals, avail);
        if |more| < room then LosesLater(room, more, Later(arrivals, avail)) else Loses(room, more, Later(arrivals, avail))
  }

  /** The same once the commands in the window have been handed out. */
  predicate LosesLater(size: nat, window: seq<byte>, arrivals: seq<Arrival>)
    requires |window| <= size && size >= DATA_BUFFER_SIZE
    decreases Weight(arrivals), 1
  {
    Loses(SizeAfter(size, window), Rest(window), arrivals)
  }

  lemma FullIsDoubled(size: nat, window: seq<byte>, arrivals: seq<Arrival>)
    requires |window| <= size && size >= DATA_BUFFER_SIZE
    ensures Loses(size, window, arrivals) == Loses(Room(size, window), window, arrivals)
  {}

  lemma NothingToSearch(size: nat, window: seq<byte>, arrivals: seq<Arrival>)
    requires |window| <= size && size >= DATA_BUFFER_SIZE && !HasNewline(window)
    ensures LosesLater(size, window, arrivals) == Loses(size, window, arrivals)
  {
    NoLine(window);
  }

  lemma LosesByCase(size: nat, window: seq<byte>, arrivals: seq<Arrival>)
    requires |window| < size && size >= DATA_BUFFER_SIZE && arrivals != []
    ensures Ends(arrivals[0]) ==> Loses(size, window, arrivals) == HasNewline(window)
    ensures arrivals[0].WouldBlock? ==> Loses(size, window, arrivals) == LosesLater(size, window, arrivals[1..])
    ensures arrivals[0].Data? ==>
              var more, later := window + Got(arrivals, size - |window|), Later(arrivals, size - |window|);
              Loses(size, window, arrivals) == if |more| < size then LosesLater(size, more, later) else Loses(size, more, later)
  {
    hide LosesLater, HasNewline, Got, Later;
  }

  lemma NothingArrives(size: nat, window: seq<byte>)
    requires |window| <= size && size >= DATA_BUFFER_SIZE
    ensures !Loses(size, window, []) && !LosesLater(size, window, [])
  {}

  /** Handing out one command, with the shrinking that follows it, is part of handing out all. */
  lemma OneCommandLess(size: nat, window: seq<byte>, size': nat, window': seq<byte>, arrivals: seq<Arrival>)
    requires |window'| <= |window| <= size && |window'| <= size' && size' >= DATA_BUFFER_SIZE && size >= DATA_BUFFER_SIZE
    requires HasNewline(window) && Rest(window) == Rest(window')
    requires size' == if size > READ_BUFFER_HIGHWAT && |window'| < DATA_BUFFER_SIZE then DATA_BUFFER_SIZE else size
    ensures LosesLater(size', window', arrivals) == LosesLater(size, window, arrivals)
  {
    NoLine(window');
  }

  /** No end comes directly behind data. */
  ghost predicate EndsApart(arrivals: seq<Arrival>) {
    forall i :: 0 <= i < |arrivals| - 1 && arrivals[i].Data? ==> !Ends(arrivals[i + 1])
  }

  /** Lines are lost only where the end comes directly behind data that filled the buffer. */
  lemma {:induction false} LosesOnlyFull(size: nat, window: seq<byte>, arrivals: seq<Arrival>)
    requires |window| <= size && size >= DATA_BUFFER_SIZE && Loses(size, window, arrivals)
    ensures |window| + |Stream(arrivals)| >= DATA_BUFFER_SIZE || HasNewline(window)
    ensures EndsApart(arrivals) ==> Ends(arrivals[0]) && HasNewline(window)
    decreases Weight(arrivals)
  {
    hide HasNewline, Rest, EndsApart, Got, Later, Stream;
    if !Ends(arrivals[0]) {
      var room := Room(size, window);
      var data := arrivals[0].Data?;
      var more := if data then window + Got(arrivals, room - |window|) else window;
      var later := if data then Later(arrivals, room - |window|) else arrivals[1..];
      LaterStream(arrivals, room - |window|);
      if EndsApart(arrivals) { LaterApart(arrivals, room - |window|); }
      if data && |more| == room {
        if EndsApart(arrivals) { LosesOnlyFull(room, more, later); }
      } else {
        RestHasNone(more);
        LosesOnlyFull(SizeAfter(room, more), Rest(more), later);
      }
    }
  }

  lemma LaterStream(arrivals: seq<Arrival>, avail: nat)
    requires arrivals != [] && !Ends(arrivals[0]) && avail > 0
    ensures arrivals[0].Data? ==> Stream(arrivals) == Got(arrivals, avail) + Stream(Later(arrivals, avail))
    ensures arrivals[0].WouldBlock? ==> Stream(arrivals) == Stream(arrivals[1..])
  {
    hide Stream, Weight;
    var rest := arrivals[1..];
    assert [arrivals[0]] + rest == arrivals;
    StreamTail(arrivals[0], rest);
    if arrivals[0].Data? && |arrivals[0].bytes| > avail {
      var bytes := arrivals[0].bytes;
      StreamTail(Data(bytes[avail..]), rest);
      Associate(bytes[..avail], bytes[avail..], Stream(rest));
      assert bytes[..avail] + bytes[avail..] == bytes;
    }
  }

  lemma LaterApart(arrivals: seq<Arrival>, avail: nat)
    requires arrivals != [] && !Ends(arrivals[0]) && avail > 0 && EndsApart(arrivals)
    ensures arrivals[0].WouldBlock? ==> EndsApart(arrivals[1..])
    ensures arrivals[0].Data? ==>
              EndsApart(Later(arrivals, avail)) && (Later(arrivals, avail) != [] ==> !Ends(Later(arrivals, avail)[0]))
  {
    hide Stream, Weight;
    var rest := arrivals[1..];
    forall i | 0 <= i < |rest| - 1 && rest[i].Data? ensures !Ends(rest[i + 1]) { assert arrivals[i + 1].Data?; }
    if arrivals[0].Data? && |arrivals[0].bytes| > avail {
      var later := [Data(arrivals[0].bytes[avail..])] + rest;
      forall i | 0 <= i < |later| - 1 && later[i].Data? ensures !Ends(later[i + 1]) {
        assert arrivals[i].Data? && later[i + 1] == arrivals[i + 1];
      }
      assert Later(arrivals, avail) == later;
    }
  }

  lemma RestHasNone(s: seq<byte>)
    ensures !HasNewline(Rest(s))
  {
    LinesJoin(s);
  }

  /** A full buffer of bytes with a newline in it, and then the end: no command is handed out. */
  lemma FullThenClosed(bytes: seq<byte>)
    requires |bytes| == DATA_BUFFER_SIZE && HasNewline(bytes)
    ensures Loses(DATA_BUFFER_SIZE, [], [Data(bytes), Closed]) && Commands(LinesOf(Stream([Data(bytes), Closed]))) != []
  {
    hide HasNewline, LinesOf;
    var arrivals := [Data(bytes), Closed];
    assert Later(arrivals, DATA_BUFFER_SIZE) == [Closed];
    assert [] + Got(arrivals, DATA_BUFFER_SIZE) == bytes;
    assert Loses(DATA_BUFFER_SIZE, bytes, [Closed]);
    assert Stream(arrivals) == bytes + Stream([Closed]) == bytes;
    NoLine(bytes);
  }

  class Conn {
    var rbuf: array<byte>
    /** Where in rbuf the bytes begin that have not been looked at, and how many there are. */
    var rcurr: nat
    var rbytes: nat
    var closing: bool
    /** The command lines handed out so far. */
    var commands: seq<seq<byte>>
    /** The commands after which the connection is closed. */
    const quits: seq<byte> -> bool
    ghost var received: seq<byte>
    ghost var consumed: seq<byte>

    ghost predicate InBuffer()
      reads this`rbuf, this`rcurr, this`rbytes
    {
      rbuf.Length >= DATA_BUFFER_SIZE && rcurr + rbytes <= rbuf.Length
    }

    ghost function Unread(): (u: seq<byte>)
      reads this`rbuf, this`rcurr, this`rbytes, rbuf
      requires InBuffer()
      ensures |u| == rbytes
    {
      rbuf[rcurr..rcurr + rbytes]
    }

    /** Everything received is consumed or in the window; the commands are the lines of what is consumed. */
    ghost predicate Valid()
      reads this`rbuf, this`rcurr, this`rbytes, this`commands, this`received, this`consumed, rbuf
      ensures Valid() ==> InBuffer()
    {
      && InBuffer()
      && received == consumed + Unread()
      && Rest(consumed) == []
      && commands == Commands(LinesOf(consumed))
    }

    constructor (quits: seq<byte> -> bool)
      ensures Valid() && fresh(rbuf) && !closing && commands == [] && received == [] && this.quits == quits
      ensures rbuf.Length == DATA_BUFFER_SIZE && rcurr == 0 && rbytes == 0
    {
      rbuf, rcurr, rbytes, closing, commands := new byte[DATA_BUFFER_SIZE], 0, 0, false, [];
      this.quits, received, consumed := quits, [], [];
    }

    /** Moves the window to the beginning of the buffer. */
    method MoveToFront()
      requires Valid()
      modifies this`rcurr, rbuf
      ensures Valid() && rcurr == 0 && Unread() == old(Unread())
    {
      hide Rest, LinesOf, Commands;
      var i, from, n := 0, rcurr, rbytes;
      while i < n
        invariant 0 <= i <= n && from + n <= rbuf.Length
        invariant forall j :: 0 <= j < i ==> rbuf[j] == old(rbuf[from + j])
        invariant forall j :: from + i <= j < from + n ==> rbuf[j] == old(rbuf[j])
      {
        rbuf[i] := rbuf[from + i];
        i := i + 1;
      }
      rcurr := 0;
    }

    /** Gives the buffer another size that the window, which is at its beginning, fits in. */
    method Reallocate(size: nat)
      requires Valid() && rcurr == 0 && rbytes <= size && size >= DATA_BUFFER_SIZE
      modifies this`rbuf
      ensures Valid() && fresh(rbuf) && rbuf.Length == size && Unread() == old(Unread())
    {
      hide Rest, LinesOf, Commands;
      var newbuf := new byte[size];
      var i := 0;
      while i < rbytes
        invariant 0 <= i <= rbytes <= rbuf.Length && rbuf == old(rbuf) && newbuf[..i] == old(rbuf[..i])
      {
        newbuf[i] := rbuf[i];
        i := i + 1;
      }
      rbuf := newbuf;
    }

    /** Between requests: a big buffer with little in it becomes a small one. */
    method Shrink()
      requires Valid()
      modifies this`rcurr, this`rbuf, rbuf
      ensures Valid() && (rbuf == old(rbuf) || fresh(rbuf)) && Unread() == old(Unread())
      ensures rbuf.Length == if old(rbuf.Length) > READ_BUFFER_HIGHWAT && rbytes < DATA_BUFFER_SIZE then DATA_BUFFER_SIZE else old(rbuf.Length)
    {
      hide Rest, LinesOf, Commands;
      if rbuf.Length > READ_BUFFER_HIGHWAT && rbytes < DATA_BUFFER_SIZE {
        if rcurr != 0 {
          MoveToFront();
        }
        Reallocate(DATA_BUFFER_SIZE);
      }
    }

    /** memchr over the window. */
    method FindNewline() returns (el: nat)
      requires InBuffer()
      ensures rcurr <= el <= rcurr + rbytes && !HasNewline(rbuf[rcurr..el])
      ensures el < rcurr + rbytes ==> rbuf[el] == NEWLINE
    {
      el := rcurr;
      while el < rcurr + rbytes && rbuf[el] != NEWLINE
        invariant rcurr <= el <= rcurr + rbytes && !HasNewline(rbuf[rcurr..el])
      {
        el := el + 1;
      }
    }

    /** The C string that begins at the window. */
    method StringAt(el: nat) returns (s: seq<byte>)
      requires rcurr <= el < rbuf.Length && rbuf[el] == 0
      ensures s == CString(rbuf[rcurr..el])
    {
      var i := el;
      s := [];
      while i > rcurr
        invariant rcurr <= i <= el && s == CString(rbuf[i..el])
      {
        i := i - 1;
        assert rbuf[i..el][1..] == rbuf[i + 1..el];
        s := if rbuf[i] == 0 then [] else [rbuf[i]] + s;
      }
    }

    /** Hands out the command in front of the window, if it is complete. */
    method TryReadCommand() returns (found: bool)
      requires Valid() && !closing
      modifies this`rcurr, this`rbytes, this`closing, this`commands, this`consumed, rbuf
      ensures Valid() && received == old(received)
      ensures found <==> old(HasNewline(Unread()))
      ensures !found ==> Unread() == old(Unread()) && commands == old(commands) && !closing
      ensures found ==> |commands| == |old(commands)| + 1 && commands[..|commands| - 1] == old(commands)
      ensures found ==> (closing <==> quits(commands[|commands| - 1])) && rbytes < old(rbytes)
      ensures found ==> Rest(Unread()) == old(Rest(Unread()))
    {
      hide Rest, LinesOf, Commands, Command, CString, WithoutCr, HasNewline;
      if rbytes == 0 {
        NoNewlineInNothing();
        return false;
      }
      var el := FindNewline();
      if el == rcurr + rbytes {
        return false;
      }
      ghost var line, after := rbuf[rcurr..el], rbuf[el + 1..rcurr + rbytes];
      NewlineInside(line, after);
      assert Unread() == line + [NEWLINE] + after;
      FirstLine(line, after);
      TakeCommand(el, line, after);
      assert Unread() == after;
      found := true;
    }

    /** Ends the line at position el with a 0 and moves the window behind it. */
    method CutCommand(el: nat, ghost line: seq<byte>) returns (command: seq<byte>)
      requires InBuffer() && rcurr <= el < rcurr + rbytes && line == rbuf[rcurr..el]
      modifies this`rcurr, this`rbytes, rbuf
      ensures InBuffer() && rbytes < old(rbytes) && Unread() == old(rbuf[el + 1..rcurr + rbytes]) && command == Command(line)
    {
      hide CString;
      var cont, end := el + 1, el;
      if el - rcurr > 1 && rbuf[el - 1] == CR {
        end := el - 1;
      }
      rbuf[end] := 0;
      assert rbuf[rcurr..end] == WithoutCr(line);
      command := StringAt(end);
      rbytes := rbytes - (cont - rcurr);
      rcurr := cont;
    }

    /** The command up to the newline at position el. */
    method TakeCommand(el: nat, ghost line: seq<byte>, ghost after: seq<byte>)
      requires Valid() && rcurr <= el < rcurr + rbytes && Unread() == line + [NEWLINE] + after && !HasNewline(line)
      requires line == rbuf[rcurr..el] && after == rbuf[el + 1..rcurr + rbytes]
      modifies this`rcurr, this`rbytes, this`closing, this`commands, this`consumed, rbuf
      ensures Valid() && Unread() == after && rbytes < old(rbytes)
      ensures commands == old(commands) + [Command(line)] && consumed == old(consumed) + line + [NEWLINE]
      ensures closing <==> quits(Command(line))
    {
      hide Rest, LinesOf, Commands, Command, HasNewline, Unread;
      LineIsConsumed(consumed, line, commands);
      Regroup(consumed, line, after);
      var command := CutCommand(el, line);
      commands := commands + [command];
      closing := quits(command);
      consumed := consumed + line + [NEWLINE];
    }

    /** Puts bytes behind the window. */
    method Append(bytes: seq<byte>)
      requires InBuffer() && rcurr == 0 && rbytes + |bytes| <= rbuf.Length
      modifies this`rbytes, rbuf
      ensures InBuffer() && Unread() == old(Unread()) + bytes
    {
      var i, end := 0, rbytes;
      while i < |bytes|
        invariant 0 <= i <= |bytes| && end + |bytes| <= rbuf.Length
        invariant rbuf[..end] == old(rbuf[..end]) && rbuf[end..end + i] == bytes[..i]
        modifies rbuf
      {
        rbuf[end + i] := bytes[i];
        i := i + 1;
      }
      rbytes := end + |bytes|;
    }

    /** One read of at most avail bytes to the end of the window. */
    method Read(bytes: seq<byte>, avail: nat) returns (n: nat)
      requires Valid() && rcurr == 0 && rbytes + avail == rbuf.Length && avail > 0 && bytes != []
      modifies this`rbytes, this`received, rbuf
      ensures Valid() && 0 < n <= |bytes| && n == (if |bytes| < avail then |bytes| else avail)
      ensures received == old(received) + bytes[..n] && Unread() == old(Unread()) + bytes[..n]
    {
      hide Rest, LinesOf, Commands, Unread;
      n := if |bytes| < avail then |bytes| else avail;
      ghost var unread := Unread();
      Append(bytes[..n]);
      assert consumed + (unread + bytes[..n]) == (consumed + unread) + bytes[..n];
      received := received + bytes[..n];
    }

    method ReadNext(arrivals: seq<Arrival>, avail: nat) returns (n: nat, rest: seq<Arrival>)
      requires Valid() && rcurr == 0 && rbytes + avail == rbuf.Length && avail > 0
      requires NoEmptyData(arrivals) && arrivals != [] && arrivals[0].Data?
      modifies this`rbytes, this`received, rbuf
      ensures Valid() && NoEmptyData(rest) && n == |Got(arrivals, avail)| > 0 && rest == Later(arrivals, avail)
      ensures received == old(received) + Got(arrivals, avail) && Unread() == old(Unread()) + Got(arrivals, avail)
    {
      hide Valid, Stream, Weight, Unread;
      var bytes := arrivals[0].bytes;
      n := Read(bytes, avail);
      assert bytes[..n] == Got(arrivals, avail);
      rest := arrivals[1..];
      if n < |bytes| {
        rest := [Data(bytes[n..])] + rest;
      }
    }

    /** Reads as long as reads fill the buffer. At the end of the connection the window has been looked at before,
        or it has been filled to the last byte. */
    method TryReadNetwork(arrivals: seq<Arrival>) returns (gotdata: bool, rest: seq<Arrival>)
      requires Valid() && !closing && NoEmptyData(arrivals)
      modifies this`rcurr, this`rbytes, this`rbuf, this`closing, this`received, rbuf
      ensures Valid() && NoEmptyData(rest) && (rbuf == old(rbuf) || fresh(rbuf))
      ensures received + Stream(rest) == old(received) + Stream(arrivals) && (closing ==> Stream(rest) == [])
      ensures closing ==> gotdata && (Unread() == old(Unread()) || 2 * rbytes == rbuf.Length)
      ensures old(Loses(rbuf.Length, Unread(), arrivals)) <==>
              if closing then HasNewline(Unread()) else LosesLater(rbuf.Length, Unread(), rest)
      ensures !gotdata ==> Unread() == old(Unread()) && (arrivals == [] || (arrivals[0].WouldBlock? && rest == arrivals[1..]))
      ensures if arrivals == [] then !gotdata && rest == [] else Weight(rest) < Weight(arrivals)
    {
      hide Valid, Stream, Weight, HasNewline, Unread, Loses, LosesLater, Got, Later;
      MoveToFront();
      gotdata, rest := false, arrivals;
      ghost var all, loses := received + Stream(arrivals), Loses(rbuf.Length, Unread(), arrivals);
      while true
        invariant Valid() && rcurr == 0 && NoEmptyData(rest) && !closing && (rbuf == old(rbuf) || fresh(rbuf))
        invariant received + Stream(rest) == all
        invariant |Unread()| == rbytes && loses == Loses(rbuf.Length, Unread(), rest)
        invariant gotdata ==> Weight(rest) < Weight(arrivals) && arrivals != [] && rbytes == rbuf.Length
        invariant !gotdata ==> rest == arrivals && Unread() == old(Unread())
        decreases Weight(rest)
      {
        FullIsDoubled(rbuf.Length, Unread(), rest);
        if rbytes >= rbuf.Length {
          Reallocate(rbuf.Length * 2);
        }
        var avail := rbuf.Length - rbytes;
        if rest == [] {
          NothingArrives(rbuf.Length, Unread());
          return;
        }
        LosesByCase(rbuf.Length, Unread(), rest);
        if !rest[0].Data? {
          StreamTail(rest[0], rest[1..]);
          assert [rest[0]] + rest[1..] == rest;
          if !rest[0].WouldBlock? {
            closing, gotdata, rest := true, true, [];
            NoStream(rest);
          } else {
            rest := rest[1..];
          }
          return;
        }
        LaterStream(rest, avail);
        Associate(received, Got(rest, avail), Stream(Later(rest, avail)));
        var n;
        n, rest := ReadNext(rest, avail);
        gotdata := true;
        if n < avail {
          return;
        }
      }
    }

    /** No command before the last has closed the connection, nor the last while it is open. */
    ghost predicate Going()
      reads this`closing, this`commands
    {
      forall i :: 0 <= i < |commands| && (i < |commands| - 1 || !closing) ==> !quits(commands[i])
    }

    /** The last command has closed the connection. */
    ghost predicate Quit()
      reads this`commands
    {
      commands != [] && quits(commands[|commands| - 1])
    }

    /** Whether lines will be lost, when the window is searched for commands next. */
    ghost predicate WillLose(rest: seq<Arrival>)
      reads this`rbuf, this`rcurr, this`rbytes, rbuf
      requires InBuffer()
    {
      LosesLater(rbuf.Length, Unread(), rest)
    }

    /** Handles commands and reads until there is nothing to read. Every command is answered, and its answer sent,
        before the next is looked for. */
    method DriveMachine(arrivals: seq<Arrival>) returns (rest: seq<Arrival>)
      requires Valid() && !closing && Going() && NoEmptyData(arrivals)
      modifies this, rbuf
      ensures Valid() && NoEmptyData(rest)
      ensures received + Stream(rest) == old(received) + Stream(arrivals)
      ensures Going() && (!closing ==> !HasNewline(Unread())) && (rbuf == old(rbuf) || fresh(rbuf))
      ensures !closing ==> (WillLose(rest) <==> old(WillLose(arrivals)))
      ensures closing && !Quit() ==> Stream(rest) == [] && (HasNewline(Unread()) <==> old(WillLose(arrivals)))
      ensures !closing && arrivals != [] ==> Weight(rest) < Weight(arrivals)
    {
      hide Valid, Stream, Weight, HasNewline, NoEmptyData, Loses, LosesLater, SizeAfter, Rest, Unread;
      rest := arrivals;
      ghost var all, loses := received + Stream(arrivals), WillLose(arrivals);
      while !closing
        invariant Valid() && NoEmptyData(rest) && (rbuf == old(rbuf) || fresh(rbuf))
        invariant received + Stream(rest) == all
        invariant rest == arrivals || Weight(rest) < Weight(arrivals)
        invariant Going()
        invariant !closing ==> WillLose(rest) == loses
        invariant closing && !Quit() ==> Stream(rest) == [] && HasNewline(Unread()) == loses
        decreases Weight(rest), rbytes
      {
        ghost var size, window := rbuf.Length, Unread();
        var found := TryReadCommand();
        if found {
          if !closing {
            Shrink();
            OneCommandLess(size, window, rbuf.Length, Unread(), rest);
          }
        } else {
          NothingToSearch(size, window, rest);
          var gotdata;
          gotdata, rest := TryReadNetwork(rest);
          if !gotdata {
            return;
          }
        }
      }
    }

    /** The life of a connection. Unless a command closes it, the commands handed out are those of all bytes sent,
        in whatever pieces these arrived, if and only if the end does not come behind reads that have filled the
        buffer with a newline in it. A closing command is the last of the first ones. */
    method Serve(arrivals: seq<Arrival>)
      requires Valid() && !closing && received == [] && commands == [] && NoEmptyData(arrivals)
      modifies this, rbuf
      ensures !Quit() ==> (commands == Commands(LinesOf(Stream(arrivals))) <==> !old(Loses(rbuf.Length, [], arrivals)))
      ensures !closing ==> !Quit() && !old(Loses(rbuf.Length, [], arrivals))
      ensures commands <= Commands(LinesOf(Stream(arrivals)))
      ensures forall i :: 0 <= i < |commands| && (i < |commands| - 1 || !closing) ==> !quits(commands[i])
    {
      hide Stream, Weight, HasNewline, LinesOf, Commands, Rest, Loses, LosesLater;
      var rest := arrivals;
      assert Unread() == [];
      NoNewlineInNothing();
      ghost var loses := Loses(rbuf.Length, [], arrivals);
      NothingToSearch(rbuf.Length, [], arrivals);
      while !closing && rest != []
        invariant Valid() && NoEmptyData(rest) && Going() && (rbuf == old(rbuf) || fresh(rbuf))
        invariant received + Stream(rest) == Stream(arrivals)
        invariant !closing ==> !HasNewline(Unread()) && WillLose(rest) == loses
        invariant closing && !Quit() ==> Stream(rest) == [] && HasNewline(Unread()) == loses
        decreases !closing, Weight(rest)
      {
        rest := DriveMachine(rest);
      }
      CommandsSoFar(consumed, Unread(), Stream(rest), commands);
      NoStream(rest);
      NothingArrives(rbuf.Length, Unread());
    }
  }

  lemma NoStream(rest: seq<Arrival>)
    ensures rest == [] ==> Stream(rest) == [] && Weight(rest) == 0
  {}

  /** The commands of the complete lines come first among those of more bytes, and are all if and only if no line is
      completed. */
  lemma CommandsSoFar(consumed: seq<byte>, unread: seq<byte>, more: seq<byte>, commands: seq<seq<byte>>)
    requires Rest(consumed) == [] && commands == Commands(LinesOf(consumed))
    ensures commands <= Commands(LinesOf((consumed + unread) + more))
    ensures more == [] ==> (!HasNewline(unread) <==> commands == Commands(LinesOf((consumed + unread) + more)))
  {
    hide LinesOf, Rest, HasNewline;
    assert (consumed + unread) + more == consumed + (unread + more);
    LinesAppend(consumed, unread + more);
    if more == [] {
      assert unread + more == unread;
      NoLine(unread);
    }
  }

  lemma Regroup(consumed: seq<byte>, line: seq<byte>, after: seq<byte>)
    ensures consumed + (line + [NEWLINE] + after) == (consumed + line + [NEWLINE]) + after
  {}

  lemma Associate(a: seq<byte>, b: seq<byte>, c: seq<byte>)
    ensures a + (b + c) == (a + b) + c
  {}

  lemma NoNewlineInNothing()
    ensures !HasNewline([])
  {}

  lemma NewlineInside(line: seq<byte>, after: seq<byte>)
    ensures HasNewline(line + [NEWLINE] + after)
  {
    assert (line + [NEWLINE] + after)[|line|] == NEWLINE;
  }

  lemma LineIsConsumed(consumed: seq<byte>, line: seq<byte>, commands: seq<seq<byte>>)
    requires Rest(consumed) == [] && commands == Commands(LinesOf(consumed)) && !HasNewline(line)
    ensures Rest(consumed + line + [NEWLINE]) == []
    ensures commands + [Command(line)] == Commands(LinesOf(consumed + line + [NEWLINE]))
  {
    NextLine(consumed, line);
  }
}
