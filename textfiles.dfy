/** Reading a text file the way Python's `open(path).readlines()` does, with
    the file system reduced to the state a path is found in. */
module TextFiles {
  import opened Seqs
  import opened PyStrings

  /** What a read of a path meets: no file at all (`os.path.exists` is false
      and `open` raises `FileNotFoundError`), a file that exists but cannot be
      read (`open` raises another `OSError`), or a readable file and its text. */
  datatype FileState = Absent | Unreadable | Present(text: string)

  /** Text-mode universal newlines: a read turns "\r\n" and a lone "\r" into
      "\n". */
  function TranslateNewlines(s: string): (r: string)
    ensures '\r' !in r
    ensures |r| <= |s|
    decreases |s|
  {
    if s == [] then []
    else if s[0] == '\r' then
      "\n" + TranslateNewlines(if |s| > 1 && s[1] == '\n' then s[2..] else s[1..])
    else
      [s[0]] + TranslateNewlines(s[1..])
  }

  /** Text without carriage returns reads back unchanged. */
  lemma {:induction false} TranslateWithoutCarriageReturn(s: string)
    requires '\r' !in s
    ensures TranslateNewlines(s) == s
    decreases |s|
  {
    if s != [] {
      assert s[0] != '\r';
      TranslateWithoutCarriageReturn(s[1..]);
      assert s == [s[0]] + s[1..];
    }
  }

  /** Translation distributes over a concatenation that does not split a
      "\r\n" pair. */
  lemma {:induction false} TranslateConcat(s: string, u: string)
    requires !(s != [] && s[|s| - 1] == '\r' && u != [] && u[0] == '\n')
    ensures TranslateNewlines(s + u) == TranslateNewlines(s) + TranslateNewlines(u)
    decreases |s|
  {
    if s == [] {
      assert s + u == u;
    } else if s[0] == '\r' && |s| > 1 && s[1] == '\n' {
      TranslateConcat(s[2..], u);
      TranslateConsPair(s, u);
    } else if s[0] == '\r' && |s| == 1 {
      TranslateConsLoneReturn(s, u);
    } else {
      TranslateConcat(s[1..], u);
      TranslateConsOne(s, u);
    }
  }

  /** The step of `TranslateConcat` for text starting with "\r\n". */
  lemma TranslateConsPair(s: string, u: string)
    requires |s| > 1 && s[0] == '\r' && s[1] == '\n'
    requires TranslateNewlines(s[2..] + u) == TranslateNewlines(s[2..]) + TranslateNewlines(u)
    ensures TranslateNewlines(s + u) == TranslateNewlines(s) + TranslateNewlines(u)
  {
    var su := s + u;
    assert TranslateNewlines(su) == "\n" + TranslateNewlines(s[2..] + u) by {
      assert su[0] == '\r' && su[1] == '\n' && su[2..] == s[2..] + u;
    }
    assert TranslateNewlines(s) == "\n" + TranslateNewlines(s[2..]);
    Regroup(TranslateNewlines(su), TranslateNewlines(s[2..] + u), "\n", TranslateNewlines(s[2..]), TranslateNewlines(u));
  }

  /** Regrouping a concatenation of three pieces. */
  lemma Regroup(p: string, q: string, c: string, a: string, b: string)
    requires p == c + q && q == a + b
    ensures p == (c + a) + b
  {
  }

  /** The step of `TranslateConcat` for the text "\r" alone. */
  lemma TranslateConsLoneReturn(s: string, u: string)
    requires s == "\r" && (u == [] || u[0] != '\n')
    ensures TranslateNewlines(s + u) == TranslateNewlines(s) + TranslateNewlines(u)
  {
    var su := s + u;
    assert su[0] == '\r' && su[1..] == u;
  }

  /** The step of `TranslateConcat` for a first character read on its own. */
  lemma TranslateConsOne(s: string, u: string)
    requires |s| > 1 || (s != [] && s[0] != '\r')
    requires !(s[0] == '\r' && s[1] == '\n')
    requires TranslateNewlines(s[1..] + u) == TranslateNewlines(s[1..]) + TranslateNewlines(u)
    ensures TranslateNewlines(s + u) == TranslateNewlines(s) + TranslateNewlines(u)
  {
    var su := s + u;
    var c := if s[0] == '\r' then "\n" else [s[0]];
    assert TranslateNewlines(su) == c + TranslateNewlines(s[1..] + u) by {
      assert su[0] == s[0] && su[1..] == s[1..] + u;
      assert s[0] == '\r' ==> su[1] == s[1];
    }
    assert TranslateNewlines(s) == c + TranslateNewlines(s[1..]);
    Regroup(TranslateNewlines(su), TranslateNewlines(s[1..] + u), c, TranslateNewlines(s[1..]), TranslateNewlines(u));
  }

  /** A "\r\n" at the end of the text reads as one "\n". */
  lemma TranslateAppendLineBreak(s: string)
    ensures TranslateNewlines(s + "\r\n") == TranslateNewlines(s) + "\n"
  {
    TranslateConcat(s, "\r\n");
    assert TranslateNewlines("\r\n") == "\n" + TranslateNewlines([]);
  }

  /** A lone "\r" at the end of the text reads as "\n". */
  lemma TranslateAppendCarriageReturn(s: string)
    ensures TranslateNewlines(s + "\r") == TranslateNewlines(s) + "\n"
  {
    TranslateConcat(s, "\r");
    assert TranslateNewlines("\r") == "\n" + TranslateNewlines([]);
  }

  /** Any character other than "\r" and "\n" is read as it is. */
  lemma TranslateAppendOther(s: string, c: char)
    requires c != '\r' && c != '\n'
    ensures TranslateNewlines(s + [c]) == TranslateNewlines(s) + [c]
  {
    TranslateConcat(s, [c]);
    assert TranslateNewlines([c]) == [c] + TranslateNewlines([]);
  }

  /** A "\n" that does not follow a "\r" is read as it is. */
  lemma TranslateAppendNewline(s: string)
    requires s == [] || s[|s| - 1] != '\r'
    ensures TranslateNewlines(s + "\n") == TranslateNewlines(s) + "\n"
  {
    TranslateConcat(s, "\n");
    assert TranslateNewlines("\n") == "\n" + TranslateNewlines([]);
  }

  /** A "\n" right after a "\r" adds nothing: the "\r" already stood for
      the line break. */
  lemma TranslateAppendNewlineAfterReturn(s: string)
    requires s != [] && s[|s| - 1] == '\r'
    ensures TranslateNewlines(s + "\n") == TranslateNewlines(s)
  {
    var p := s[..|s| - 1];
    assert s == p + "\r";
    assert s + "\n" == p + "\r\n";
    TranslateAppendLineBreak(p);
    TranslateAppendCarriageReturn(p);
  }

  /** The lines laid end to end. */
  function Concat(lines: seq<string>): string
    decreases |lines|
  {
    if lines == [] then [] else lines[0] + Concat(lines[1..])
  }

  /** What `readlines` yields as one line: not empty, a "\n" at most at its
      end, and a "\n" there unless it is the last line of the text. */
  predicate IsLine(l: string, last: bool) {
    && l != []
    && (forall j :: 0 <= j < |l| - 1 ==> l[j] != '\n')
    && (!last ==> l[|l| - 1] == '\n')
  }

  /** The lines `readlines` cuts translated text into: each ends just after a
      "\n", and a tail without one is a last line of its own. */
  function SplitLines(s: string): (lines: seq<string>)
    ensures Concat(lines) == s
    ensures forall i :: 0 <= i < |lines| ==> IsLine(lines[i], i == |lines| - 1)
    decreases |s|
  {
    if s == [] then []
    else if '\n' !in s then
      assert Concat([s][1..]) == [];
      [s]
    else
      var k := FirstIndex(s, '\n');
      var rest := SplitLines(s[k + 1..]);
      var lines := [s[..k + 1]] + rest;
      assert lines[1..] == rest;
      assert s == s[..k + 1] + s[k + 1..];
      assert IsLine(lines[0], |lines| == 1) by {
        assert forall j :: 0 <= j < k ==> s[j] in s[..k];
      }
      lines
  }

  /** `open(path).readlines()` on a readable file with this text. */
  function ReadLines(text: string): (lines: seq<string>)
    ensures Concat(lines) == TranslateNewlines(text)
    ensures forall i :: 0 <= i < |lines| ==> IsLine(lines[i], i == |lines| - 1) && '\r' !in lines[i]
  {
    var lines := SplitLines(TranslateNewlines(text));
    assert forall i :: 0 <= i < |lines| ==> '\r' !in lines[i] by {
      forall i | 0 <= i < |lines| ensures '\r' !in lines[i] {
        ConcatHolds(lines, i);
      }
    }
    lines
  }

  /** Every character of a line is a character of the text. */
  lemma {:induction false} ConcatHolds(lines: seq<string>, i: nat)
    requires i < |lines|
    ensures forall c :: c in lines[i] ==> c in Concat(lines)
    decreases |lines|
  {
    if i > 0 {
      ConcatHolds(lines[1..], i - 1);
    }
  }

  /** `[x.strip() for x in open(path).readlines()]`: one stripped token per
      line of the file. */
  function StrippedLines(text: string): (tokens: seq<string>)
    ensures |tokens| == |ReadLines(text)|
    ensures forall i :: 0 <= i < |tokens| ==> tokens[i] == Strip(ReadLines(text)[i])
  {
    var lines := ReadLines(text);
    seq(|lines|, i requires 0 <= i < |lines| => Strip(lines[i]))
  }

  /** A token that survives being written as one line and read back: no line
      break inside it and no whitespace at either end. */
  predicate Storable(t: string) {
    '\n' !in t && '\r' !in t && Trimmed(t)
  }

  /** A stripped line holds no line break. */
  lemma StrippedLineStorable(l: string, last: bool)
    requires IsLine(l, last) && '\r' !in l
    ensures Storable(Strip(l))
  {
    var left := StripLeft(l);
    var r := StripRight(left);
    assert Strip(l) == r;
  }

  /** Every token read from an exclusion file is storable: reading never yields
      a token with a line break or with whitespace at an end. */
  lemma StrippedLinesStorable(text: string)
    ensures forall t :: t in StrippedLines(text) ==> Storable(t)
  {
    var lines := ReadLines(text);
    var tokens := StrippedLines(text);
    forall i | 0 <= i < |tokens| ensures Storable(tokens[i]) {
      StrippedLineStorable(lines[i], i == |lines| - 1);
    }
  }
}
