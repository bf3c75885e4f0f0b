/** The non-blocking line editor xbee_readline: one key per call, the line kept terminated in the
    caller's buffer. */
module Readline {
  import opened Platform

  const NUL: char := 0 as char
  const EOT: char := 4 as char
  const BS: char := 8 as char
  const DEL: char := 0x7F as char
  const LF: char := 10 as char
  const CR: char := 13 as char

  datatype Key = NoKey | Key(c: char)

  /** A key that a line took notice of, and how many characters the line could hold at that call. */
  datatype Press = Press(c: char, cap: nat)

  /** The keys of a line, the latest outermost. */
  datatype History = Start | Then(before: History, k: Press)

  predicate IsErase(c: char) { c == BS || c == DEL }
  predicate IsEnd(c: char) { c == LF || c == CR }

  /** isprint() of the C locale. */
  predicate IsPrint(c: char) { ' ' <= c <= '~' }

  /** One key on the line: a bounded stack of characters. */
  function Edit(line: seq<char>, k: Press): seq<char>
  {
    if IsErase(k.c) then (if line == [] then [] else line[..|line| - 1])
    else if IsPrint(k.c) && |line| < k.cap then line + [k.c]
    else line
  }

  /** The line after a key history. */
  function Fold(h: History): seq<char>
  {
    match h
    case Start => []
    case Then(before, k) => Edit(Fold(before), k)
  }

  /** No key found room for more than cap characters. */
  predicate Capped(h: History, cap: nat)
  {
    h.Start? || (h.k.cap <= cap && Capped(h.before, cap))
  }

  lemma {:induction false} FoldFits(h: History, cap: nat)
    requires Capped(h, cap)
    ensures |Fold(h)| <= cap
    ensures forall i :: 0 <= i < |Fold(h)| ==> IsPrint(Fold(h)[i])
  {
    if h.Then? {
      FoldFits(h.before, cap);
    }
  }

  /** Erasing undoes the key before it exactly when that key was taken, or the line was empty. */
  lemma EraseUndoes(h: History, k: Press, cap: nat)
    requires !IsErase(k.c)
    ensures var line := Fold(h);
            Fold(Then(Then(h, k), Press(BS, cap))) == line <==> (IsPrint(k.c) && |line| < k.cap) || line == []
  {
    var line := Fold(h);
    if IsPrint(k.c) && |line| < k.cap {
      assert (line + [k.c])[..|line|] == line;
    }
  }

  /** CTRL-D is a key like any other that cannot be printed: it neither ends nor changes a line. */
  lemma CtrlDIsIgnored(h: History, cap: nat)
    ensures !Ends(Key(EOT)) && Fold(Then(h, Press(EOT, cap))) == Fold(h)
  {
  }

  /** A key that is neither printed nor an eraser, or finds the line full, changes nothing. */
  lemma OtherKeysAreIgnored(h: History, k: Press)
    requires !IsErase(k.c) && (!IsPrint(k.c) || |Fold(h)| >= k.cap)
    ensures Fold(Then(h, k)) == Fold(h)
  {
  }

  // ---------------------------------------------------------------- the line is what was typed

  /** The keys cs on top of a history, with room for cap characters at each of them. */
  function Type(h: History, cs: seq<char>, cap: nat): History
  {
    if cs == [] then h else Then(Type(h, cs[..|cs| - 1], cap), Press(cs[|cs| - 1], cap))
  }

  /** Printable keys that fit are appended as they are. */
  lemma {:induction false} TypedIsAppended(h: History, cs: seq<char>, cap: nat)
    requires |Fold(h)| + |cs| <= cap && forall i :: 0 <= i < |cs| ==> IsPrint(cs[i])
    ensures Fold(Type(h, cs, cap)) == Fold(h) + cs
  {
    if cs == [] {
      assert Fold(h) + cs == Fold(h);
    } else {
      TypedIsAppended(h, cs[..|cs| - 1], cap);
      assert cs == cs[..|cs| - 1] + [cs[|cs| - 1]];
    }
  }

  /** What is left of a line without its last n characters. */
  function Shortened(line: seq<char>, n: nat): seq<char> { if n >= |line| then [] else line[..|line| - n] }

  /** Each eraser, backspace or delete, takes one character off. */
  lemma {:induction false} ErasersShorten(h: History, es: seq<char>, cap: nat)
    requires forall i :: 0 <= i < |es| ==> IsErase(es[i])
    ensures Fold(Type(h, es, cap)) == Shortened(Fold(h), |es|)
  {
    if es != [] {
      ErasersShorten(h, es[..|es| - 1], cap);
    }
  }

  /** As many erasers as keys were typed give the line back. */
  lemma ErasersUndoTyping(h: History, cs: seq<char>, es: seq<char>, cap: nat)
    requires |Fold(h)| + |cs| <= cap && forall i :: 0 <= i < |cs| ==> IsPrint(cs[i])
    requires |es| == |cs| && forall i :: 0 <= i < |es| ==> IsErase(es[i])
    ensures Fold(Type(Type(h, cs, cap), es, cap)) == Fold(h)
  {
    TypedIsAppended(h, cs, cap);
    ErasersShorten(Type(h, cs, cap), es, cap);
  }

  /** The same line read backwards: of the keys from the latest on, each printable one stays unless
      an eraser after it is still to be paid for. skip counts those. */
  function Unerased(h: History, skip: nat): seq<char>
  {
    if h.Start? then []
    else if IsErase(h.k.c) then Unerased(h.before, skip + 1)
    else if !IsPrint(h.k.c) then Unerased(h.before, skip)
    else if skip > 0 then Unerased(h.before, skip - 1)
    else Unerased(h.before, 0) + [h.k.c]
  }

  function Printables(h: History): nat
  {
    if h.Start? then 0 else Printables(h.before) + (if IsPrint(h.k.c) then 1 else 0)
  }

  /** Even if nothing had been erased there would be room for every printable key. */
  predicate Roomy(h: History)
  {
    h.Start? || (Roomy(h.before) && (IsPrint(h.k.c) ==> Printables(h.before) < h.k.cap))
  }

  lemma {:induction false} LineIsUnerased(h: History, skip: nat)
    requires Roomy(h)
    ensures |Fold(h)| <= Printables(h) && Unerased(h, skip) == Shortened(Fold(h), skip)
  {
    if h.Then? {
      var next := if IsErase(h.k.c) then skip + 1 else if IsPrint(h.k.c) && skip > 0 then skip - 1 else skip;
      LineIsUnerased(h.before, next);
      OneKeyShortened(Fold(h.before), h.k, skip);
    }
  }

  lemma OneKeyShortened(line: seq<char>, k: Press, skip: nat)
    requires IsPrint(k.c) ==> |line| < k.cap
    ensures IsErase(k.c) ==> Shortened(Edit(line, k), skip) == Shortened(line, skip + 1)
    ensures IsPrint(k.c) && skip > 0 ==> Shortened(Edit(line, k), skip) == Shortened(line, skip - 1)
    ensures IsPrint(k.c) && skip == 0 ==> Shortened(Edit(line, k), skip) == Shortened(line, 0) + [k.c]
    ensures !IsErase(k.c) && !IsPrint(k.c) ==> Shortened(Edit(line, k), skip) == Shortened(line, skip)
  {
    assert line[..|line|] == line;
    if IsPrint(k.c) && skip > 0 && skip <= |line| {
      assert (line + [k.c])[..|line| + 1 - skip] == line[..|line| - (skip - 1)];
    }
  }

  // ---------------------------------------------------------------- the editor

  /** One key on the line in the buffer: an eraser shortens it, a printable key with room for it is
      appended, and any other leaves it alone. */
  predicate Edited(line: seq<char>, line': seq<char>, c: char, room: int)
  {
    && (IsErase(c) && line != [] ==> line' + [line[|line| - 1]] == line)
    && (IsPrint(c) && |line| < room ==> line' == line + [c])
    && (!(IsErase(c) && line != []) && !(IsPrint(c) && |line| < room) ==> line' == line)
  }

  datatype State = Init | StartLine | ContinueLine

  class Editor {
    var state: State
    var cursor: nat
    ghost var keys: History            // keys since the line was started
    ghost var started: array?<char>    // the buffer the line was started in

    constructor ()
      ensures state == Init
    {
      state, cursor, keys, started := Init, 0, Start, null;
    }

    /** A line in progress sits terminated in the buffer, and cursor is at its end. */
    ghost predicate Holds(buffer: array<char>)
      reads this, buffer
    {
      && started == buffer
      && cursor == |Fold(keys)| < buffer.Length
      && buffer[..cursor] == Fold(keys)
      && buffer[cursor] == NUL
    }

    /** The keys of the line in progress. */
    ghost function Before(): History
      reads this
    {
      if state == ContinueLine then keys else Start
    }

    /** xbee_readline( buffer, length), key being what the console offers. A line may be continued
        with another length. */
    method Readline(buffer: array?<char>, length: int, key: Key) returns (ret: int)
      requires buffer != null ==> length <= buffer.Length
      requires buffer != null && length >= 1 && state == ContinueLine ==> Holds(buffer)
      modifies this, buffer
      ensures buffer == null || length < 1 ==>
        ret == -EINVAL && unchanged(this) && (buffer != null ==> buffer[..] == old(buffer[..]))
      ensures buffer != null && length >= 1 ==>
        && Holds(buffer)
        && keys == Take(old(Before()), key, length - 1)
        && ret == (if Ends(key) then |Fold(keys)| else -EAGAIN)
        && state == (if Ends(key) then StartLine else ContinueLine)
      ensures buffer != null && length >= 1 ==>
        var line := if old(state) == ContinueLine then old(buffer[..cursor]) else [];
        if key == NoKey || Ends(key) then buffer[..cursor] == line
        else Edited(line, buffer[..cursor], key.c, length - 1)
    {
      if buffer == null || length < 1 {
        return -EINVAL;
      }
      if state != ContinueLine {
        cursor := 0;
        buffer[0] := NUL;
        state := ContinueLine;
        keys, started := Start, buffer;
      }
      if key == NoKey {
        return -EAGAIN;
      }
      var c := key.c;
      if IsEnd(c) {
        state := StartLine;
        return cursor;
      }
      EditLine(buffer, length, c);
      ret := -EAGAIN;
    }

    /** The part after the newline test: the key erases, is appended, or is ignored. */
    method EditLine(buffer: array<char>, length: int, c: char)
      requires Holds(buffer) && 1 <= length <= buffer.Length && !IsEnd(c)
      modifies this`keys, this`cursor, buffer
      ensures Holds(buffer) && keys == Then(old(keys), Press(c, length - 1))
      ensures Edited(old(buffer[..cursor]), buffer[..cursor], c, length - 1)
    {
      ghost var line, k := Fold(keys), Press(c, length - 1);
      keys := Then(keys, k);
      if IsErase(c) {
        if cursor != 0 {
          cursor := cursor - 1;
        }
      } else if IsPrint(c) && cursor < length - 1 {
        buffer[cursor] := c;
        cursor := cursor + 1;
      }
      buffer[cursor] := NUL;
      assert buffer[..cursor] == Edit(line, k);
    }

    /** Polls one after the other, until one of them ends the line. */
    method PollLine(buffer: array<char>, length: int, polls: seq<Key>) returns (ret: int, n: nat)
      requires 1 <= length <= buffer.Length && state != ContinueLine
      modifies this, buffer
      ensures n <= |polls| && forall i :: 0 <= i < n ==> !Ends(polls[i])
      ensures ret == -EAGAIN ==> n == |polls|
      ensures ret == -EAGAIN && polls != [] ==>
        state == ContinueLine && Holds(buffer) && keys == Typed(polls, |polls|, length - 1)
      ensures ret != -EAGAIN ==> n < |polls| && Ends(polls[n]) && state == StartLine
      ensures ret != -EAGAIN ==>
        var line := Fold(Typed(polls, n, length - 1));
        ret == |line| < length && buffer[..ret] == line && buffer[ret] == NUL
      ensures ret != -EAGAIN && Printables(Typed(polls, n, length - 1)) < length ==>
        buffer[..ret] == Unerased(Typed(polls, n, length - 1), 0)
      ensures ret != -EAGAIN && OnlyText(polls, n) && |Text(polls, n)| < length ==>
        ret == |Text(polls, n)| && buffer[..ret] == Text(polls, n)
    {
      ret, n := -EAGAIN, 0;
      ghost var typed := Start;
      while n < |polls|
        invariant n <= |polls| && forall i :: 0 <= i < n ==> !Ends(polls[i])
        invariant state == ContinueLine ==> Holds(buffer)
        invariant typed == Typed(polls, n, length - 1) && Before() == typed && Capped(typed, length - 1)
        invariant state == ContinueLine <==> n > 0
      {
        var r := Poll(buffer, length, polls[n], typed);
        if r != -EAGAIN {
          LineOfPolls(polls, n, length - 1);
          return r, n;
        }
        typed := Take(typed, polls[n], length - 1);
        n := n + 1;
      }
    }

    /** One poll after the keys typed have been taken. */
    method Poll(buffer: array<char>, length: int, key: Key, ghost typed: History) returns (ret: int)
      requires 1 <= length <= buffer.Length && (state == ContinueLine ==> Holds(buffer))
      requires Before() == typed && Capped(typed, length - 1)
      modifies this, buffer
      ensures ret == -EAGAIN <==> !Ends(key)
      ensures Holds(buffer) && state == (if Ends(key) then StartLine else ContinueLine)
      ensures keys == Take(typed, key, length - 1)
      ensures Ends(key) ==> ret == |Fold(typed)| < length && buffer[..ret] == Fold(typed) && buffer[ret] == NUL
    {
      FoldFits(typed, length - 1);
      ret := Readline(buffer, length, key);
    }

    /** Any number of polls, with a line read out of the buffer whenever one is finished. */
    method PollLines(buffer: array<char>, length: int, polls: seq<Key>) returns (lines: seq<seq<char>>)
      requires 1 <= length <= buffer.Length && state != ContinueLine
      modifies this, buffer
      ensures lines == Folded(Finished(polls, |polls|, length - 1))
      ensures state == ContinueLine ==> Holds(buffer)
      ensures Before() == Current(polls, |polls|, length - 1)
    {
      lines := [];
      for n := 0 to |polls|
        invariant lines == Folded(Finished(polls, n, length - 1))
        invariant state == ContinueLine ==> Holds(buffer)
        invariant Before() == Current(polls, n, length - 1)
      {
        ghost var typed := Current(polls, n, length - 1);
        CurrentCapped(polls, n, length - 1);
        var r := Poll(buffer, length, polls[n], typed);
        if r >= 0 {
          FoldedNext(Finished(polls, n, length - 1), typed);
          lines := lines + [buffer[..r]];
        }
      }
    }
  }

  predicate Ends(k: Key) { k != NoKey && IsEnd(k.c) }

  /** What a poll adds to the keys of the line. */
  function Take(h: History, k: Key, cap: nat): History
  {
    if k == NoKey || IsEnd(k.c) then h else Then(h, Press(k.c, cap))
  }

  /** The keys of the first n polls, however many of them found none. */
  function Typed(polls: seq<Key>, n: nat, cap: nat): History
    requires n <= |polls|
  {
    if n == 0 then Start else Take(Typed(polls, n - 1, cap), polls[n - 1], cap)
  }

  /** The characters the first n polls offer. */
  function Text(polls: seq<Key>, n: nat): seq<char>
    requires n <= |polls|
  {
    if n == 0 then [] else Text(polls, n - 1) + (if polls[n - 1] == NoKey then [] else [polls[n - 1].c])
  }

  predicate OnlyText(polls: seq<Key>, n: nat)
    requires n <= |polls|
  {
    forall i :: 0 <= i < n ==> polls[i] == NoKey || IsPrint(polls[i].c)
  }

  /** What the keys before a newline leave, said without the fold: the unerased keys, and plain text
      as it is. */
  lemma LineOfPolls(polls: seq<Key>, n: nat, cap: nat)
    requires n <= |polls|
    ensures var h := Typed(polls, n, cap);
            && (Printables(h) <= cap ==> Fold(h) == Unerased(h, 0))
            && (OnlyText(polls, n) && |Text(polls, n)| <= cap ==> Fold(h) == Text(polls, n))
  {
    var h := Typed(polls, n, cap);
    if Printables(h) <= cap {
      FewAreRoomy(polls, n, cap);
      LineIsUnerased(h, 0);
      assert Fold(h)[..|Fold(h)|] == Fold(h);
    }
    if OnlyText(polls, n) && |Text(polls, n)| <= cap {
      TextIsKept(polls, n, cap);
    }
  }

  lemma {:induction false} FewAreRoomy(polls: seq<Key>, n: nat, cap: nat)
    requires n <= |polls| && Printables(Typed(polls, n, cap)) <= cap
    ensures Roomy(Typed(polls, n, cap))
  {
    if n > 0 {
      FewAreRoomy(polls, n - 1, cap);
    }
  }

  lemma {:induction false} TextIsKept(polls: seq<Key>, n: nat, cap: nat)
    requires n <= |polls| && OnlyText(polls, n) && |Text(polls, n)| <= cap
    ensures Fold(Typed(polls, n, cap)) == Text(polls, n)
  {
    if n > 0 {
      TextIsKept(polls, n - 1, cap);
      assert Text(polls, n - 1) + [] == Text(polls, n - 1);
    }
  }

  /** The keys since the last newline among the first n polls. */
  function Current(polls: seq<Key>, n: nat, cap: nat): History
    requires n <= |polls|
  {
    if n == 0 || Ends(polls[n - 1]) then Start else Take(Current(polls, n - 1, cap), polls[n - 1], cap)
  }

  lemma {:induction false} CurrentCapped(polls: seq<Key>, n: nat, cap: nat)
    requires n <= |polls|
    ensures Capped(Current(polls, n, cap), cap)
  {
    if n > 0 {
      CurrentCapped(polls, n - 1, cap);
    }
  }

  /** The keys of each line that the first n polls finish. */
  function Finished(polls: seq<Key>, n: nat, cap: nat): seq<History>
    requires n <= |polls|
  {
    if n == 0 then []
    else if Ends(polls[n - 1]) then Finished(polls, n - 1, cap) + [Current(polls, n - 1, cap)]
    else Finished(polls, n - 1, cap)
  }

  /** The lines that finished keys leave. */
  function Folded(hs: seq<History>): (lines: seq<seq<char>>)
    ensures |lines| == |hs| && forall i :: 0 <= i < |hs| ==> lines[i] == Fold(hs[i])
  {
    seq(|hs|, i requires 0 <= i < |hs| => Fold(hs[i]))
  }

  lemma FoldedNext(hs: seq<History>, h: History)
    ensures Folded(hs + [h]) == Folded(hs) + [Fold(h)]
  {
  }

  /** The polls up to the first newline give the first line, and what follows gives the others as
      if nothing had come before. */
  lemma LinesSplit(first: seq<Key>, k: Key, rest: seq<Key>, cap: nat)
    requires Ends(k) && forall i :: 0 <= i < |first| ==> !Ends(first[i])
    ensures var all := first + [k] + rest;
            && Finished(all, |all|, cap) == [Typed(first, |first|, cap)] + Finished(rest, |rest|, cap)
            && Current(all, |all|, cap) == Current(rest, |rest|, cap)
  {
    var head := first + [k];
    assert head[|first|] == k;
    SamePrefix(head, first, |first|, cap);
    NoLineYet(first, |first|, cap);
    FinishedAfter(head + rest, head, rest, |rest|, cap);
    CurrentAfter(head + rest, head, rest, |rest|, cap);
  }

  /** all is head followed by rest, poll by poll. */
  predicate Follows(all: seq<Key>, head: seq<Key>, rest: seq<Key>)
  {
    && |all| == |head| + |rest|
    && (forall i :: 0 <= i < |head| ==> all[i] == head[i])
    && (forall i :: 0 <= i < |rest| ==> all[|head| + i] == rest[i])
  }

  lemma {:induction false} CurrentAfter(all: seq<Key>, head: seq<Key>, rest: seq<Key>, m: nat, cap: nat)
    requires Follows(all, head, rest) && m <= |rest| && Current(head, |head|, cap) == Start
    ensures Current(all, |head| + m, cap) == Current(rest, m, cap)
  {
    if m == 0 {
      SamePrefix(all, head, |head|, cap);
    } else {
      CurrentAfter(all, head, rest, m - 1, cap);
    }
  }

  /** After a newline the polls that follow are read like polls on their own. */
  lemma {:induction false} FinishedAfter(all: seq<Key>, head: seq<Key>, rest: seq<Key>, m: nat, cap: nat)
    requires Follows(all, head, rest) && m <= |rest| && Current(head, |head|, cap) == Start
    ensures Finished(all, |head| + m, cap) == Finished(head, |head|, cap) + Finished(rest, m, cap)
  {
    if m == 0 {
      SamePrefix(all, head, |head|, cap);
      NothingMore(Finished(head, |head|, cap));
    } else {
      FinishedAfter(all, head, rest, m - 1, cap);
      CurrentAfter(all, head, rest, m - 1, cap);
      assert all[|head| + m - 1] == rest[m - 1];
      if Ends(rest[m - 1]) {
        OneMore(Finished(head, |head|, cap), Finished(rest, m - 1, cap), Current(rest, m - 1, cap));
      }
    }
  }

  lemma NothingMore(a: seq<History>)
    ensures a + [] == a
  {
  }

  lemma OneMore(a: seq<History>, b: seq<History>, h: History)
    ensures a + (b + [h]) == (a + b) + [h]
  {
  }

  lemma {:induction false} SamePrefix(all: seq<Key>, head: seq<Key>, n: nat, cap: nat)
    requires n <= |head| <= |all| && forall i :: 0 <= i < |head| ==> all[i] == head[i]
    ensures Finished(all, n, cap) == Finished(head, n, cap)
    ensures Current(all, n, cap) == Current(head, n, cap)
  {
    if n > 0 {
      SamePrefix(all, head, n - 1, cap);
    }
  }

  lemma {:induction false} NoLineYet(polls: seq<Key>, n: nat, cap: nat)
    requires n <= |polls| && forall i :: 0 <= i < n ==> !Ends(polls[i])
    ensures Finished(polls, n, cap) == [] && Current(polls, n, cap) == Typed(polls, n, cap)
  {
    if n > 0 {
      NoLineYet(polls, n - 1, cap);
    }
  }
}
