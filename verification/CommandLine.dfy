/**
 Splitting a command line into words: split_command() of exec.c, which first
 counts the words and then, on a copy, records where they start and ends each
 one by overwriting the white space after it.
 */
module CommandLine {
  import opened Words
  import opened Shell

  // ---- Words of a line ----------------------------------------------------

  // The next character that is white space, or that is not, or the end
  function Next(s: seq<byte>, i: nat, space: bool): (n: nat)
    requires i <= |s|
    ensures i <= n <= |s| && (n < |s| ==> IsSpace(s[n]) == space)
    decreases |s| - i
  {
    if i == |s| || IsSpace(s[i]) == space then i else Next(s, i + 1, space)
  }

  // The maximal runs of characters other than white space, from position i
  function Tokens(s: seq<byte>, i: nat): Argv
    requires i <= |s|
    decreases |s| - i
  {
    var start := Next(s, i, false);
    if start == |s| then [] else [s[start..Next(s, start, true)]] + Tokens(s, Next(s, start, true))
  }

  // The first word, from `start` up to `end`
  lemma TokensFrom(s: seq<byte>, i: nat, start: int, end: int)
    requires i <= start < end <= |s|
    requires (forall j :: i <= j < start ==> IsSpace(s[j])) && (forall j :: start <= j < end ==> !IsSpace(s[j]))
    requires end < |s| ==> IsSpace(s[end])
    ensures Tokens(s, i) == [s[start..end]] + Tokens(s, end)
  {
    hide Next, IsSpace;
    NextIs(s, i, false, start);
    NextIs(s, start, true, end);
  }

  lemma NextIs(s: seq<byte>, i: nat, space: bool, n: int)
    requires i <= n <= |s| && (forall j :: i <= j < n ==> IsSpace(s[j]) != space) && (n < |s| ==> IsSpace(s[n]) == space)
    ensures Next(s, i, space) == n
    decreases n - i
  {
    hide IsSpace;
    if i < n {
      NextIs(s, i + 1, space, n);
    }
  }

  lemma NoTokens(s: seq<byte>, i: nat)
    requires i <= |s| && forall j :: i <= j < |s| ==> IsSpace(s[j])
    ensures Tokens(s, i) == []
  {
    hide Next, IsSpace;
    NextIs(s, i, false, |s|);
  }

  predicate IsWord(w: Word) {
    w != [] && forall i :: 0 <= i < |w| ==> !IsSpace(w[i])
  }

  function Spaced(words: Argv): seq<byte> {
    if words == [] then [] else [SPACE] + words[0] + Spaced(words[1..])
  }

  // Words written with spaces between them are read back as they were.
  lemma {:induction false} TokensOfSpaced(words: Argv, s: seq<byte>, i: nat)
    requires (forall k :: 0 <= k < |words| ==> IsWord(words[k])) && i <= |s| && s[i..] == Spaced(words)
    ensures Tokens(s, i) == words
    decreases |words|
  {
    hide Tokens, IsSpace;
    if words == [] {
      NoTokens(s, i);
    } else {
      var w := words[0];
      var end := i + 1 + |w|;
      assert s[i..] == [SPACE] + w + Spaced(words[1..]);
      assert forall j :: 0 <= j < |w| ==> s[i..][1 + j] == w[j];
      assert s[i + 1..end] == w;
      assert s[end..] == Spaced(words[1..]);
      SpaceAfter(words[1..], s, end);
      SpaceIsSpace();
      assert s[i] == SPACE;
      assert IsWord(w);
      TokensOfSpaced(words[1..], s, end);
      TokensFrom(s, i, i + 1, end);
    }
  }

  lemma SpaceIsSpace()
    ensures IsSpace(SPACE)
  {
  }

  lemma WhiteSpace(c: byte)
    ensures IsSpace(c) <==> c == 0x20 || 0x09 <= c <= 0x0d
  {
  }

  lemma SpaceAfter(words: Argv, s: seq<byte>, i: nat)
    requires i <= |s| && s[i..] == Spaced(words)
    ensures i < |s| ==> s[i] == SPACE && IsSpace(s[i])
  {
  }

  // ---- The two passes -----------------------------------------------------

  // The first pass: the number of words
  method Count(s: seq<byte>) returns (count: nat)
    ensures count == |Tokens(s, 0)|
  {
    hide Tokens, IsSpace;
    count := 0;
    var i := 0;
    while true
      invariant 0 <= i <= |s| && count + |Tokens(s, i)| == |Tokens(s, 0)|
      decreases |s| - i
    {
      var start := i;
      while start < |s| && IsSpace(s[start])
        invariant i <= start <= |s| && forall j :: i <= j < start ==> IsSpace(s[j])
      {
        start := start + 1;
      }
      if start == |s| {
        NoTokens(s, i);
        break;
      }
      count := count + 1;
      var end := start;
      while end < |s| && !IsSpace(s[end])
        invariant start <= end <= |s| && forall j :: start <= j < end ==> !IsSpace(s[j])
      {
        end := end + 1;
      }
      TokensFrom(s, i, start, end);
      i := end;
    }
  }

  // A line of length |s| in an array, with its terminator
  ghost predicate HoldsLine(copy: array<byte>, s: seq<byte>, from: int)
    reads copy
  {
    && copy.Length == |s| + 1 && 0 <= from <= |s| && copy[|s|] == 0
    && forall j :: from <= j < |s| ==> copy[j] == s[j]
  }

  // A word and its terminator
  ghost predicate HoldsWord(m: seq<byte>, at: int, word: Word) {
    && 0 <= at && at + |word| < |m| && m[at..at + |word|] == word && m[at + |word|] == 0
    && forall j :: 0 <= j < |word| ==> word[j] != 0
  }

  // A word that ends no later than `limit`, perhaps not terminated yet
  ghost predicate HoldsPart(m: seq<byte>, at: int, word: Word, limit: int) {
    && 0 <= at && at + |word| <= limit < |m| && m[at..at + |word|] == word
    && (at + |word| < limit ==> m[at + |word|] == 0)
    && forall j :: 0 <= j < |word| ==> word[j] != 0
  }

  // Skip white space, converting it to terminators.
  method Erase(copy: array<byte>, i: int, ghost s: seq<byte>) returns (start: int)
    requires HoldsLine(copy, s, i)
    modifies copy
    ensures i <= start <= |s| && HoldsLine(copy, s, start)
    ensures (forall j :: i <= j < start ==> IsSpace(s[j]) && copy[j] == 0) && (start < |s| ==> !IsSpace(s[start]))
    ensures forall j :: 0 <= j < i ==> copy[j] == old(copy[j])
  {
    start := i;
    while IsSpace(copy[start])
      invariant i <= start <= |s| && HoldsLine(copy, s, start)
      invariant forall j :: i <= j < start ==> IsSpace(s[j]) && copy[j] == 0
      invariant forall j :: 0 <= j < i ==> copy[j] == old(copy[j])
      decreases |s| - start
    {
      copy[start] := 0;
      start := start + 1;
    }
  }

  // Find the end of a word.
  method Skip(copy: array<byte>, start: int, ghost s: seq<byte>) returns (end: int)
    requires HoldsLine(copy, s, start) && forall j :: 0 <= j < |s| ==> s[j] != 0
    ensures start <= end <= |s| && (forall j :: start <= j < end ==> !IsSpace(s[j])) && (end < |s| ==> IsSpace(s[end]))
  {
    end := start;
    while copy[end] != 0 && !IsSpace(copy[end])
      invariant start <= end <= |s| && forall j :: start <= j < end ==> !IsSpace(s[j])
      decreases |s| - end
    {
      end := end + 1;
    }
  }

  // The second pass: as many words as were counted, each of them terminated
  method Split(copy: array<byte>, tokens: array<int>, ghost s: seq<byte>)
    requires HoldsLine(copy, s, 0) && (forall j :: 0 <= j < |s| ==> s[j] != 0)
    requires tokens.Length == |Tokens(s, 0)| + 1
    modifies copy, tokens
    ensures forall k :: 0 <= k < |Tokens(s, 0)| ==> HoldsWord(copy[..], tokens[k], Tokens(s, 0)[k])
  {
    hide Tokens, IsSpace;
    ghost var all := Tokens(s, 0);
    var count, i := 0, 0;
    while true
      invariant HoldsLine(copy, s, i) && 0 <= count <= |all| && all[count..] == Tokens(s, i)
      invariant count > 0 && i < |s| ==> IsSpace(s[i])
      invariant forall k :: 0 <= k < count ==> HoldsPart(copy[..], tokens[k], all[k], i)
      decreases |s| - i
    {
      ghost var m := copy[..];
      var start := Erase(copy, i, s);
      forall k | 0 <= k < count
        ensures HoldsWord(copy[..], tokens[k], all[k])
      {
        Terminated(m, copy[..], tokens[k], all[k], i);
      }
      if copy[start] == 0 {
        NoTokens(s, i);
        break;
      }
      var end := Skip(copy, start, s);
      TokensFrom(s, i, start, end);
      assert s[start..end] == copy[start..end];
      assert all[count..][0] == all[count] && all[count..][1..] == all[count + 1..];
      tokens[count] := start;
      count := count + 1;
      i := end;
    }
  }

  lemma Terminated(m: seq<byte>, m': seq<byte>, at: int, word: Word, limit: int)
    requires HoldsPart(m, at, word, limit) && |m'| == |m| && m'[limit] == 0
    requires forall j :: 0 <= j < limit ==> m'[j] == m[j]
    ensures HoldsWord(m', at, word)
  {
    assert m'[at..at + |word|] == m[at..at + |word|];
  }

  // Read one word.
  method Read(copy: array<byte>, at: int, ghost word: Word) returns (r: Word)
    requires HoldsWord(copy[..], at, word)
    ensures r == word
  {
    var end := at;
    assert forall j :: 0 <= j < |word| ==> copy[at + j] == word[j];
    while copy[end] != 0
      invariant at <= end <= at + |word|
      decreases at + |word| - end
    {
      end := end + 1;
    }
    r := copy[at..end];
  }

  method ReadAll(copy: array<byte>, tokens: array<int>, count: nat, ghost all: Argv) returns (words: Argv)
    requires count == |all| < tokens.Length && forall k :: 0 <= k < count ==> HoldsWord(copy[..], tokens[k], all[k])
    ensures words == all
  {
    hide HoldsWord;
    words := [];
    for k := 0 to count
      invariant words == all[..k]
    {
      var word := Read(copy, tokens[k], all[k]);
      words := words + [word];
    }
  }

  // system(): the line means what its words mean, joined from the left.
  method System(sh: Interpreter, command: seq<byte>, memory: bool) returns (rc: int)
    requires forall j :: 0 <= j < |command| ==> command[j] != 0
    modifies sh
    ensures !memory ==> rc == ENOMEM && unchanged(sh)
    ensures memory ==>
              var words := Tokens(command, 0);
              var s := Eval(sh.w, State(old(sh.ran), 0, old(sh.stopState), false), Parsed(words[..Live(words)]));
              sh.ran == s.ran && rc == s.rc && sh.stopState == s.stop
  {
    hide Tokens, Eval, Parsed, Live;
    var count := Count(command);
    if !memory {
      return ENOMEM;
    }
    var copy := new byte[|command| + 1](i => if 0 <= i < |command| then command[i] else 0);
    var tokens := new int[count + 1](_ => -1);
    Split(copy, tokens, command);
    var words := ReadAll(copy, tokens, count, Tokens(command, 0));
    rc := sh.Process(words);
  }
}
