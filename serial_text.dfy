/**
 * What the serial helper's text operations compute, as functions of the
 * receive line and of the strings handed to them: the bounded line reader,
 * the characters of a NUL-terminated string, and the draining of pending
 * input.
 */
module SerialText {
  import opened PicoUart

  /** One timed wait of the line reader, in microseconds. */
  const AguardoCaractereTextoUs: nat := 1000
  /** Silence after which the line reader gives up, in microseconds. */
  const TempoMaximoSemDadosUs: nat := 20000
  /** The number of consecutive empty waits that make up that silence. */
  const MaxIdlePolls: nat := 20
  /** The end-of-line sequence sent after a text line. */
  const FimLinha: seq<char> := "\r\n"

  /** The characters of a C string: everything before the first NUL. */
  function CString(s: seq<char>): (r: seq<char>)
    ensures |r| <= |s| && r == s[..|r|]
    ensures '\0' !in r
    ensures |r| < |s| ==> s[|r|] == '\0'
    ensures '\0' in s ==> |r| < |s|
  {
    if s == [] || s[0] == '\0' then [] else [s[0]] + CString(s[1..])
  }

  /** The end-of-line text, stored with its NUL, gives exactly FimLinha. */
  lemma FimLinhaText()
    ensures CString(['\r', '\n', '\0']) == FimLinha
  {
    var z: seq<char> := ['\0'];
    var nz: seq<char> := ['\n', '\0'];
    var rnz: seq<char> := ['\r', '\n', '\0'];
    assert CString(z) == [];
    assert nz[1..] == z;
    assert CString(nz) == ['\n'];
    assert rnz[1..] == nz;
  }

  /** The characters received on a stretch of the line, in order. */
  function Chars(ps: seq<Poll>): seq<char>
  {
    if ps == [] then [] else (if ps[0].Char? then [ps[0].c] else []) + Chars(ps[1..])
  }

  /** A text with every carriage return removed. */
  function NoCR(cs: seq<char>): (r: seq<char>)
    ensures '\r' !in r
    ensures |r| <= |cs|
  {
    if cs == [] then [] else (if cs[0] == '\r' then [] else [cs[0]]) + NoCR(cs[1..])
  }

  /** The number of `Idle` polls at the end of a stretch of the line. */
  function TrailingIdle(ps: seq<Poll>): nat
  {
    if ps == [] || ps[|ps| - 1].Char? then 0 else 1 + TrailingIdle(ps[..|ps| - 1])
  }

  /** No prefix of ps ends in MaxIdlePolls or more consecutive empty waits. */
  ghost predicate NeverQuiet(ps: seq<Poll>)
  {
    forall k :: 0 <= k <= |ps| ==> TrailingIdle(ps[..k]) < MaxIdlePolls
  }

  /** rest is what is left of rx after some of its front has been used up. */
  predicate IsSuffix(rest: seq<Poll>, rx: seq<Poll>)
  {
    |rest| <= |rx| && rest == rx[|rx| - |rest|..]
  }

  lemma SuffixOfTail(rest: seq<Poll>, rx: seq<Poll>)
    requires rx != [] && IsSuffix(rest, rx[1..])
    ensures IsSuffix(rest, rx)
  {
    assert rx[1..][|rx[1..]| - |rest|..] == rx[|rx| - |rest|..];
  }

  datatype Stop = Delimiter | Full | TimedOut

  /**
   * The outcome of reading one line: the characters stored in the buffer,
   * what is left of the receive line, and why reading stopped.
   */
  datatype LineRead = LineRead(stored: seq<char>, rest: seq<Poll>, stop: Stop) {
    /** A NUL is written after the stored characters unless the reader timed out with nothing. */
    predicate Terminated() {
      !(stop == TimedOut && stored == [])
    }
  }

  /**
   * The line reader's loop from a point where `stored` is in the buffer and
   * the line has been silent for `waitedUs`; `limit` is the buffer size minus
   * one, the room left for the NUL.
   */
  function Scan(rx: seq<Poll>, limit: nat, delim: char, stored: seq<char>, waitedUs: nat): (o: LineRead)
    requires |stored| <= limit && waitedUs < TempoMaximoSemDadosUs
    ensures |stored| <= |o.stored| <= limit && o.stored[..|stored|] == stored
    ensures IsSuffix(o.rest, rx)
    ensures o.stop == Full <==> |o.stored| == limit
    ensures o.stop == TimedOut && o.stored == [] ==> stored == []
    decreases |rx|, TempoMaximoSemDadosUs - waitedUs
  {
    if |stored| == limit then LineRead(stored, rx, Full)
    else if rx == [] then
      if waitedUs + AguardoCaractereTextoUs >= TempoMaximoSemDadosUs then LineRead(stored, [], TimedOut)
      else Scan([], limit, delim, stored, waitedUs + AguardoCaractereTextoUs)
    else
      var o :=
        if rx[0].Idle? then
          if waitedUs + AguardoCaractereTextoUs >= TempoMaximoSemDadosUs then LineRead(stored, rx[1..], TimedOut)
          else Scan(rx[1..], limit, delim, stored, waitedUs + AguardoCaractereTextoUs)
        else if rx[0].c == delim then LineRead(stored, rx[1..], Delimiter)
        else if rx[0].c == '\r' then Scan(rx[1..], limit, delim, stored, 0)
        else Scan(rx[1..], limit, delim, stored + [rx[0].c], 0);
      SuffixOfTail(o.rest, rx);
      if rx[0].Char? && rx[0].c != delim && rx[0].c != '\r' && |o.stored| > |stored| then
        PrefixOfLonger(o.stored, stored, rx[0].c);
        o
      else o
  }

  /** A sequence that begins with stored + [c] begins with stored. */
  lemma PrefixOfLonger(s: seq<char>, stored: seq<char>, c: char)
    requires |stored| < |s| && s[..|stored| + 1] == stored + [c]
    ensures s[..|stored|] == stored
  {
    assert s[..|stored|] == s[..|stored| + 1][..|stored|];
  }

  /** One step of the reader when the timed wait finds nothing. */
  lemma ScanWait(rx: seq<Poll>, limit: nat, delim: char, stored: seq<char>, waitedUs: nat)
    requires |stored| < limit && waitedUs < TempoMaximoSemDadosUs
    requires rx == [] || rx[0].Idle?
    ensures var rest := if rx == [] then rx else rx[1..];
      var w := waitedUs + AguardoCaractereTextoUs;
      Scan(rx, limit, delim, stored, waitedUs)
        == if w >= TempoMaximoSemDadosUs then LineRead(stored, rest, TimedOut)
           else Scan(rest, limit, delim, stored, w)
  {
  }

  /** One step of the reader when a character is waiting. */
  lemma ScanChar(rx: seq<Poll>, limit: nat, delim: char, stored: seq<char>, waitedUs: nat)
    requires |stored| < limit && waitedUs < TempoMaximoSemDadosUs
    requires rx != [] && rx[0].Char?
    ensures var c := rx[0].c;
      Scan(rx, limit, delim, stored, waitedUs)
        == if c == delim then LineRead(stored, rx[1..], Delimiter)
           else if c == '\r' then Scan(rx[1..], limit, delim, stored, 0)
           else Scan(rx[1..], limit, delim, stored + [c], 0)
  {
  }

  /** The whole line reader, on an empty buffer of limit + 1 characters. */
  function ReadLine(rx: seq<Poll>, limit: nat, delim: char): LineRead
  {
    Scan(rx, limit, delim, [], 0)
  }

  /** The polls a read used up. */
  function Consumed(rx: seq<Poll>, o: LineRead): seq<Poll>
    requires |o.rest| <= |rx|
  {
    rx[..|rx| - |o.rest|]
  }

  lemma {:induction false} NoCRAppend(a: seq<char>, b: seq<char>)
    ensures NoCR(a + b) == NoCR(a) + NoCR(b)
  {
    if a == [] {
      assert a + b == b;
    } else {
      var c := a[0];
      var head: seq<char> := if c == '\r' then [] else [c];
      assert (a + b)[0] == c;
      assert (a + b)[1..] == a[1..] + b;
      assert NoCR(a + b) == head + NoCR(a[1..] + b);
      assert NoCR(a) == head + NoCR(a[1..]);
      NoCRAppend(a[1..], b);
    }
  }

  lemma ConsumedStep(rx: seq<Poll>, o: LineRead)
    requires rx != [] && IsSuffix(o.rest, rx[1..])
    ensures IsSuffix(o.rest, rx)
    ensures Consumed(rx, o) == [rx[0]] + Consumed(rx[1..], o)
    ensures Chars(Consumed(rx, o)) == (if rx[0].Char? then [rx[0].c] else []) + Chars(Consumed(rx[1..], o))
  {
    SuffixOfTail(o.rest, rx);
    var c := Consumed(rx, o);
    assert c[1..] == Consumed(rx[1..], o);
  }

  /**
   * `result` is `stored` followed by the characters of got, carriage returns
   * dropped: up to the first delimiter, which ends got and is not stored, if
   * the read stopped at one, or all of got otherwise.
   */
  ghost predicate StoresChars(got: seq<char>, stored: seq<char>, result: seq<char>, atDelim: bool, delim: char)
  {
    && (atDelim ==>
          && got != [] && got[|got| - 1] == delim && delim !in got[..|got| - 1]
          && result == stored + NoCR(got[..|got| - 1]))
    && (!atDelim ==> delim !in got && result == stored + NoCR(got))
  }

  lemma StoresCharsCons(c: char, tail: seq<char>, stored: seq<char>, result: seq<char>, atDelim: bool, delim: char)
    requires c != delim
    requires StoresChars(tail, stored + NoCR([c]), result, atDelim, delim)
    ensures StoresChars([c] + tail, stored, result, atDelim, delim)
  {
    var got := [c] + tail;
    if atDelim {
      var pre := tail[..|tail| - 1];
      assert got[..|got| - 1] == [c] + pre;
      NoCRAppend([c], pre);
    } else {
      NoCRAppend([c], tail);
    }
  }

  /** o stores what arrived on the polls it used up, after `stored`, as StoresChars says. */
  ghost predicate StoresReceived(rx: seq<Poll>, o: LineRead, stored: seq<char>, delim: char)
    requires IsSuffix(o.rest, rx)
  {
    StoresChars(Chars(Consumed(rx, o)), stored, o.stored, o.stop == Delimiter, delim)
  }

  /** A character other than the delimiter, in front of the line, joins what is stored. */
  lemma ContentCharStep(rx: seq<Poll>, o: LineRead, stored: seq<char>, delim: char)
    requires rx != [] && rx[0].Char? && rx[0].c != delim
    requires IsSuffix(o.rest, rx[1..])
    requires StoresReceived(rx[1..], o, stored + NoCR([rx[0].c]), delim)
    ensures IsSuffix(o.rest, rx) && StoresReceived(rx, o, stored, delim)
  {
    ConsumedStep(rx, o);
    StoresCharsCons(rx[0].c, Chars(Consumed(rx[1..], o)), stored, o.stored, o.stop == Delimiter, delim);
  }

  /** An empty wait in front of the line adds nothing to what is stored. */
  lemma ContentIdleStep(rx: seq<Poll>, o: LineRead, stored: seq<char>, delim: char)
    requires rx != [] && rx[0].Idle?
    requires IsSuffix(o.rest, rx[1..])
    requires StoresReceived(rx[1..], o, stored, delim)
    ensures IsSuffix(o.rest, rx) && StoresReceived(rx, o, stored, delim)
  {
    ConsumedStep(rx, o);
    var tail := Chars(Consumed(rx[1..], o));
    assert Chars(Consumed(rx, o)) == [] + tail == tail;
  }

  /** A read that uses up nothing and stops short of a delimiter adds nothing. */
  lemma ContentNothingUsed(rx: seq<Poll>, o: LineRead, stored: seq<char>, delim: char)
    requires o.rest == rx && o.stored == stored && o.stop != Delimiter
    ensures IsSuffix(o.rest, rx) && StoresReceived(rx, o, stored, delim)
  {
    assert Consumed(rx, o) == [];
    assert stored + NoCR([]) == stored;
  }

  /** A delimiter in front of the line ends the read and is not stored. */
  lemma ContentDelimStep(rx: seq<Poll>, o: LineRead, stored: seq<char>, delim: char)
    requires rx != [] && rx[0] == Char(delim)
    requires o == LineRead(stored, rx[1..], Delimiter)
    ensures IsSuffix(o.rest, rx) && StoresReceived(rx, o, stored, delim)
  {
    var e: seq<char> := [];
    assert Consumed(rx, o) == [rx[0]];
    assert Chars([rx[0]]) == [delim] + Chars([rx[0]][1..]);
    assert [rx[0]][1..] == [];
    assert Chars(Consumed(rx, o)) == [delim];
    assert [delim][..0] == e;
    assert stored + NoCR(e) == stored;
  }

  /** The line reader's loop stores what arrives, as StoresReceived says. */
  lemma {:induction false} ScanContent(rx: seq<Poll>, limit: nat, delim: char, stored: seq<char>, waitedUs: nat)
    requires |stored| <= limit && waitedUs < TempoMaximoSemDadosUs
    ensures StoresReceived(rx, Scan(rx, limit, delim, stored, waitedUs), stored, delim)
    decreases |rx|, TempoMaximoSemDadosUs - waitedUs, 1
  {
    var o := Scan(rx, limit, delim, stored, waitedUs);
    if |stored| == limit {
      ContentNothingUsed(rx, o, stored, delim);
    } else if rx == [] || rx[0].Idle? {
      ScanContentWait(rx, limit, delim, stored, waitedUs);
    } else if rx[0].c == delim {
      ContentDelimStep(rx, o, stored, delim);
    } else {
      ScanContentChar(rx, limit, delim, stored, waitedUs);
    }
  }

  /** ScanContent when the timed wait finds nothing. */
  lemma {:induction false} ScanContentWait(rx: seq<Poll>, limit: nat, delim: char, stored: seq<char>, waitedUs: nat)
    requires |stored| < limit && waitedUs < TempoMaximoSemDadosUs
    requires rx == [] || rx[0].Idle?
    ensures StoresReceived(rx, Scan(rx, limit, delim, stored, waitedUs), stored, delim)
    decreases |rx|, TempoMaximoSemDadosUs - waitedUs, 0
  {
    var o := Scan(rx, limit, delim, stored, waitedUs);
    var w := waitedUs + AguardoCaractereTextoUs;
    var rest := if rx == [] then rx else rx[1..];
    ScanWait(rx, limit, delim, stored, waitedUs);
    if w < TempoMaximoSemDadosUs {
      assert o == Scan(rest, limit, delim, stored, w);
      ScanContent(rest, limit, delim, stored, w);
    } else {
      assert o == LineRead(stored, rest, TimedOut);
      ContentNothingUsed(rest, o, stored, delim);
    }
    if rx != [] {
      ContentIdleStep(rx, o, stored, delim);
    }
  }

  /** ScanContent when a character other than the delimiter is waiting. */
  lemma {:induction false} ScanContentChar(rx: seq<Poll>, limit: nat, delim: char, stored: seq<char>, waitedUs: nat)
    requires |stored| < limit && waitedUs < TempoMaximoSemDadosUs
    requires rx != [] && rx[0].Char? && rx[0].c != delim
    ensures StoresReceived(rx, Scan(rx, limit, delim, stored, waitedUs), stored, delim)
    decreases |rx|, TempoMaximoSemDadosUs - waitedUs, 0
  {
    var o := Scan(rx, limit, delim, stored, waitedUs);
    var c := rx[0].c;
    assert NoCR([c]) == (if c == '\r' then [] else [c]) by {
      assert [c][1..] == [];
    }
    var next := stored + NoCR([c]);
    if c == '\r' {
      assert next == stored;
    }
    ScanChar(rx, limit, delim, stored, waitedUs);
    assert o == Scan(rx[1..], limit, delim, next, 0);
    ScanContent(rx[1..], limit, delim, next, 0);
    ContentCharStep(rx, o, stored, delim);
  }

  lemma TrailingIdleStep(ps: seq<Poll>, p: Poll)
    ensures TrailingIdle(ps + [p]) == if p.Char? then 0 else TrailingIdle(ps) + 1
  {
    assert (ps + [p])[..|ps|] == ps;
  }

  lemma NeverQuietStep(ps: seq<Poll>, p: Poll)
    requires NeverQuiet(ps)
    requires TrailingIdle(ps + [p]) < MaxIdlePolls
    ensures NeverQuiet(ps + [p])
  {
    forall k | 0 <= k <= |ps| + 1
      ensures TrailingIdle((ps + [p])[..k]) < MaxIdlePolls
    {
      if k <= |ps| {
        assert (ps + [p])[..k] == ps[..k];
      } else {
        assert (ps + [p])[..k] == ps + [p];
      }
    }
  }

  lemma NeverQuietTake(ps: seq<Poll>, m: nat)
    requires NeverQuiet(ps) && m <= |ps|
    ensures NeverQuiet(ps[..m]) && TrailingIdle(ps[..m]) < MaxIdlePolls
  {
    forall k | 0 <= k <= m
      ensures TrailingIdle(ps[..m][..k]) < MaxIdlePolls
    {
      assert ps[..m][..k] == ps[..k];
    }
  }

  /**
   * How the loop's silence counter relates to the polls seen so far: it ends
   * the read when the run of empty waits since the last character reaches
   * MaxIdlePolls, or, when the line runs dry, with the rest of that run spent
   * on the silent line; up to then no run of that length occurs.
   */
  ghost predicate TimingHolds(all: seq<Poll>, o: LineRead)
  {
    && (o.stop != TimedOut ==> NeverQuiet(all))
    && (o.stop == TimedOut ==>
          && (all != [] ==> NeverQuiet(all[..|all| - 1]))
          && (TrailingIdle(all) == MaxIdlePolls || (o.rest == [] && TrailingIdle(all) < MaxIdlePolls)))
  }

  /** TimingHolds does not care where the split between seen and used-up polls falls. */
  lemma TimingShift(before: seq<Poll>, rx: seq<Poll>, o: LineRead)
    requires rx != [] && IsSuffix(o.rest, rx[1..])
    requires TimingHolds((before + [rx[0]]) + Consumed(rx[1..], o), o)
    ensures IsSuffix(o.rest, rx) && TimingHolds(before + Consumed(rx, o), o)
  {
    ConsumedStep(rx, o);
    assert (before + [rx[0]]) + Consumed(rx[1..], o) == before + Consumed(rx, o);
  }

  /** Reading ends on an empty wait that completes the silence. */
  lemma TimingLastWait(before: seq<Poll>, rx: seq<Poll>, o: LineRead)
    requires rx != [] && rx[0].Idle? && o.rest == rx[1..] && o.stop == TimedOut
    requires NeverQuiet(before) && TrailingIdle(before) + 1 == MaxIdlePolls
    ensures IsSuffix(o.rest, rx) && TimingHolds(before + Consumed(rx, o), o)
  {
    var all := before + [rx[0]];
    assert rx[1..][|rx[1..]| - |o.rest|..] == o.rest;
    assert Consumed(rx, o) == [rx[0]];
    TrailingIdleStep(before, rx[0]);
    assert all[..|all| - 1] == before;
  }

  /** Reading ends without using up a poll. */
  lemma TimingNothingUsed(before: seq<Poll>, rx: seq<Poll>, o: LineRead)
    requires o.rest == rx && NeverQuiet(before)
    requires o.stop == TimedOut ==> rx == []
    ensures IsSuffix(o.rest, rx) && TimingHolds(before + Consumed(rx, o), o)
  {
    assert Consumed(rx, o) == [];
    assert before + Consumed(rx, o) == before;
    NeverQuietTake(before, |before|);
    assert before[..|before|] == before;
    if before != [] {
      NeverQuietTake(before, |before| - 1);
    }
  }

  /** The loop's silence counter, given the polls `before` already seen, as TimingHolds says. */
  lemma {:induction false} ScanQuiet(rx: seq<Poll>, limit: nat, delim: char, stored: seq<char>, waitedUs: nat, before: seq<Poll>)
    requires |stored| <= limit && waitedUs < TempoMaximoSemDadosUs
    requires waitedUs == TrailingIdle(before) * AguardoCaractereTextoUs
    requires NeverQuiet(before)
    ensures var o := Scan(rx, limit, delim, stored, waitedUs);
      TimingHolds(before + Consumed(rx, o), o)
    decreases |rx|, TempoMaximoSemDadosUs - waitedUs
  {
    var o := Scan(rx, limit, delim, stored, waitedUs);
    var w := waitedUs + AguardoCaractereTextoUs;
    if |stored| == limit {
      TimingNothingUsed(before, rx, o);
    } else if rx == [] {
      assert o.rest == [];
      TimingNothingUsed(before, rx, o);
    } else {
      var p := rx[0];
      var before' := before + [p];
      TrailingIdleStep(before, p);
      if p.Idle? {
        if w >= TempoMaximoSemDadosUs {
          TimingLastWait(before, rx, o);
        } else {
          NeverQuietStep(before, p);
          ScanQuiet(rx[1..], limit, delim, stored, w, before');
          TimingShift(before, rx, o);
        }
      } else if p.c == delim {
        NeverQuietStep(before, p);
        assert o == LineRead(stored, rx[1..], Delimiter);
        TimingNothingUsed(before', rx[1..], o);
        TimingShift(before, rx, o);
      } else {
        NeverQuietStep(before, p);
        var next := if p.c == '\r' then stored else stored + [p.c];
        assert o == Scan(rx[1..], limit, delim, next, 0);
        ScanQuiet(rx[1..], limit, delim, next, 0, before');
        TimingShift(before, rx, o);
      }
    }
  }

  /**
   * Where o stopped on rx, given `stored` already in the buffer: right after
   * the delimiter, or right after the character that filled the buffer (or
   * at once, if it was full already).
   */
  ghost predicate StopsRightThere(rx: seq<Poll>, o: LineRead, stored: seq<char>, delim: char)
    requires IsSuffix(o.rest, rx)
  {
    var used := Consumed(rx, o);
    && (o.stop == Delimiter ==> used != [] && used[|used| - 1] == Char(delim))
    && (o.stop == Full && |o.stored| == |stored| ==> used == [])
    && (o.stop == Full && |o.stored| > |stored| ==> used != [] && used[|used| - 1] == Char(o.stored[|o.stored| - 1]))
  }

  /** A poll in front of what a read used up on the rest of the line does not move its last poll. */
  lemma ConsumedLast(rx: seq<Poll>, o: LineRead)
    requires rx != [] && IsSuffix(o.rest, rx[1..]) && Consumed(rx[1..], o) != []
    ensures IsSuffix(o.rest, rx) && Consumed(rx, o) != []
    ensures Consumed(rx, o)[|Consumed(rx, o)| - 1] == Consumed(rx[1..], o)[|Consumed(rx[1..], o)| - 1]
  {
    ConsumedStep(rx, o);
  }

  /** The line reader's loop stops right after the delimiter or the character that fills the buffer. */
  lemma {:induction false} ScanStops(rx: seq<Poll>, limit: nat, delim: char, stored: seq<char>, waitedUs: nat)
    requires |stored| <= limit && waitedUs < TempoMaximoSemDadosUs
    ensures StopsRightThere(rx, Scan(rx, limit, delim, stored, waitedUs), stored, delim)
    decreases |rx|, TempoMaximoSemDadosUs - waitedUs, 1
  {
    var o := Scan(rx, limit, delim, stored, waitedUs);
    if |stored| == limit {
      assert Consumed(rx, o) == [];
    } else if rx == [] || rx[0].Idle? {
      ScanStopsWait(rx, limit, delim, stored, waitedUs);
    } else if rx[0].c == delim {
      ScanChar(rx, limit, delim, stored, waitedUs);
      assert Consumed(rx, o) == [rx[0]];
    } else {
      ScanStopsChar(rx, limit, delim, stored, waitedUs);
    }
  }

  /** ScanStops when the timed wait finds nothing. */
  lemma {:induction false} ScanStopsWait(rx: seq<Poll>, limit: nat, delim: char, stored: seq<char>, waitedUs: nat)
    requires |stored| < limit && waitedUs < TempoMaximoSemDadosUs
    requires rx == [] || rx[0].Idle?
    ensures StopsRightThere(rx, Scan(rx, limit, delim, stored, waitedUs), stored, delim)
    decreases |rx|, TempoMaximoSemDadosUs - waitedUs, 0
  {
    var o := Scan(rx, limit, delim, stored, waitedUs);
    var w := waitedUs + AguardoCaractereTextoUs;
    var rest := if rx == [] then rx else rx[1..];
    ScanWait(rx, limit, delim, stored, waitedUs);
    if w < TempoMaximoSemDadosUs {
      assert o == Scan(rest, limit, delim, stored, w);
      ScanStops(rest, limit, delim, stored, w);
      if rx != [] && o.stop != TimedOut {
        ConsumedLast(rx, o);
      }
    }
  }

  /** ScanStops when a character other than the delimiter is waiting. */
  lemma {:induction false} ScanStopsChar(rx: seq<Poll>, limit: nat, delim: char, stored: seq<char>, waitedUs: nat)
    requires |stored| < limit && waitedUs < TempoMaximoSemDadosUs
    requires rx != [] && rx[0].Char? && rx[0].c != delim
    ensures StopsRightThere(rx, Scan(rx, limit, delim, stored, waitedUs), stored, delim)
    decreases |rx|, TempoMaximoSemDadosUs - waitedUs, 0
  {
    var o := Scan(rx, limit, delim, stored, waitedUs);
    var c := rx[0].c;
    var next := if c == '\r' then stored else stored + [c];
    ScanChar(rx, limit, delim, stored, waitedUs);
    assert o == Scan(rx[1..], limit, delim, next, 0);
    ScanStops(rx[1..], limit, delim, next, 0);
    if |next| == limit {
      assert o == LineRead(next, rx[1..], Full);
      assert Consumed(rx, o) == [rx[0]];
    } else if o.stop != TimedOut {
      ConsumedLast(rx, o);
    }
  }

  /**
   * The stored line is what arrived, in order, with carriage returns removed,
   * up to the first delimiter (used up, not stored) or until the buffer is
   * full or the line falls silent. It never holds more than limit characters.
   */
  lemma ReadLineContent(rx: seq<Poll>, limit: nat, delim: char)
    ensures var o := ReadLine(rx, limit, delim);
      var used := Consumed(rx, o);
      var got := Chars(used);
      && |o.stored| <= limit
      && (o.stop == Full <==> |o.stored| == limit)
      && (o.stop == Delimiter ==>
            && got != [] && got[|got| - 1] == delim && delim !in got[..|got| - 1]
            && o.stored == NoCR(got[..|got| - 1]))
      && (o.stop != Delimiter ==> delim !in got && o.stored == NoCR(got))
      && (o.stop == Delimiter ==> used[|used| - 1] == Char(delim))
      && (o.stop == Full && limit == 0 ==> used == [])
      && (o.stop == Full && limit > 0 ==> used != [] && used[|used| - 1] == Char(o.stored[limit - 1]))
  {
    ScanContent(rx, limit, delim, [], 0);
    ScanStops(rx, limit, delim, [], 0);
  }

  /**
   * A character resets the silence counter, and only MaxIdlePolls consecutive
   * empty waits (20 waits of 1000 us) end the read; if the line runs dry
   * first, the waits still to come fall on the silent line.
   */
  lemma ReadLineTimeout(rx: seq<Poll>, limit: nat, delim: char)
    ensures var o := ReadLine(rx, limit, delim);
      var used := Consumed(rx, o);
      && (o.stop != TimedOut ==> NeverQuiet(used))
      && (o.stop == TimedOut ==>
            && (used != [] ==> NeverQuiet(used[..|used| - 1]))
            && (TrailingIdle(used) == MaxIdlePolls || (o.rest == [] && TrailingIdle(used) < MaxIdlePolls)))
  {
    var o := ReadLine(rx, limit, delim);
    var none: seq<Poll> := [];
    assert NeverQuiet(none) by {
      assert forall k :: 0 <= k <= 0 ==> none[..k] == none;
    }
    ScanQuiet(rx, limit, delim, [], 0, none);
    assert none + Consumed(rx, o) == Consumed(rx, o);
  }

  /** With room for the NUL only, nothing is read and the buffer gets just the NUL. */
  lemma ReadLineNoRoom(rx: seq<Poll>, delim: char)
    ensures ReadLine(rx, 0, delim) == LineRead([], rx, Full)
    ensures ReadLine(rx, 0, delim).Terminated()
  {
  }

  /** What draining pending input leaves of the receive line. */
  function AfterDrain(rx: seq<Poll>): (r: seq<Poll>)
    ensures |r| <= |rx| && r == rx[|rx| - |r|..]
    ensures r == [] || !r[0].Char?
    ensures forall i :: 0 <= i < |rx| - |r| ==> rx[i].Char?
  {
    if rx != [] && rx[0].Char? then AfterDrain(rx[1..]) else rx
  }
}
