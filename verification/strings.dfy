/**
 * String helpers with the semantics of the JavaScript built-ins the program calls:
 * `String.prototype.split` on one character, `Array.prototype.join`, `trim`,
 * `includes`, `pop()` of a split, `length` in UTF-16 code units, and ASCII upper/lower casing.
 */
module Strings {

  /** The characters `String.prototype.trim` strips (ECMAScript WhiteSpace and LineTerminator). */
  const Spaces: set<char> := {
    ' ', '\t', '\n', '\r', '\U{000B}', '\U{000C}', '\U{00A0}', '\U{FEFF}', '\U{1680}',
    '\U{2000}', '\U{2001}', '\U{2002}', '\U{2003}', '\U{2004}', '\U{2005}', '\U{2006}',
    '\U{2007}', '\U{2008}', '\U{2009}', '\U{200A}',
    '\U{2028}', '\U{2029}', '\U{202F}', '\U{205F}', '\U{3000}'}

  predicate IsSpace(c: char)
  {
    c in Spaces
  }

  /** `s` with its leading whitespace removed. */
  function TrimStart(s: string): (r: string)
    ensures |r| <= |s| && r == s[|s| - |r|..]
    ensures forall k :: 0 <= k < |s| - |r| ==> IsSpace(s[k])
    ensures r == [] || !IsSpace(r[0])
  {
    if |s| > 0 && IsSpace(s[0]) then
      var t := TrimStart(s[1..]);
      assert forall k :: 1 <= k < |s| - |t| ==> s[k] == s[1..][k - 1];
      t
    else s
  }

  /** `s` with its trailing whitespace removed. */
  function TrimEnd(s: string): (r: string)
    ensures |r| <= |s| && r == s[..|r|]
    ensures forall k :: |r| <= k < |s| ==> IsSpace(s[k])
    ensures r == [] || !IsSpace(r[|r| - 1])
  {
    if |s| > 0 && IsSpace(s[|s| - 1]) then TrimEnd(s[..|s| - 1]) else s
  }

  /** JavaScript's `s.trim()`. */
  function Trim(s: string): string
  {
    TrimEnd(TrimStart(s))
  }

  /** A string neither starting nor ending with whitespace. */
  predicate IsTrimmed(s: string)
  {
    s == [] || (!IsSpace(s[0]) && !IsSpace(s[|s| - 1]))
  }

  /** Trimming yields a trimmed infix of the input that starts after the leading whitespace,
      and every character cut off on either side is whitespace. */
  lemma TrimSpec(s: string)
    ensures var i := |s| - |TrimStart(s)|; var r := Trim(s);
      && IsTrimmed(r)
      && i + |r| <= |s| && r == s[i..i + |r|]
      && (forall k :: 0 <= k < i ==> IsSpace(s[k]))
      && (forall k :: i + |r| <= k < |s| ==> IsSpace(s[k]))
  {
    TrimIsTrimmedInfix(s);
    TrimCutsSpaceAtEnd(s);
  }

  /** The trimmed string is trimmed and sits in `s` right after the leading whitespace. */
  lemma TrimIsTrimmedInfix(s: string)
    ensures var i := |s| - |TrimStart(s)|; var r := Trim(s);
      IsTrimmed(r) && i + |r| <= |s| && r == s[i..i + |r|]
  {
    var a := TrimStart(s);
    var r := TrimEnd(a);
    assert Trim(s) == r;
    PrefixOfSuffix(s, a, r);
    IsTrimmedWhenEndsAre(a, r);
  }

  /** Everything after the trimmed string is whitespace. */
  lemma TrimCutsSpaceAtEnd(s: string)
    ensures var i := |s| - |TrimStart(s)|;
      forall k :: i + |Trim(s)| <= k < |s| ==> IsSpace(s[k])
  {
    var a := TrimStart(s);
    SpaceAfterPrefix(s, a, TrimEnd(a));
  }

  /** When `a` is a suffix of `s` and everything in `a` after its prefix `r` is whitespace,
      so is everything in `s` after where `r` ends. */
  lemma SpaceAfterPrefix(s: string, a: string, r: string)
    requires |a| <= |s| && a == s[|s| - |a|..] && |r| <= |a|
    requires forall k :: |r| <= k < |a| ==> IsSpace(a[k])
    ensures forall k :: |s| - |a| + |r| <= k < |s| ==> IsSpace(s[k])
  {
    var i := |s| - |a|;
    forall k | i + |r| <= k < |s|
      ensures IsSpace(s[k])
    {
      assert s[k] == a[k - i];
    }
  }

  /** A prefix of a string that does not start with whitespace, when it does not end with
      whitespace itself, is trimmed. */
  lemma IsTrimmedWhenEndsAre(a: string, r: string)
    requires a == [] || !IsSpace(a[0])
    requires |r| <= |a| && r == a[..|r|]
    requires r == [] || !IsSpace(r[|r| - 1])
    ensures IsTrimmed(r)
  {
    if r != [] {
      assert r[0] == a[0];
    }
  }

  /** A prefix `r` of a suffix `a` of `s` is the infix of `s` where `a` starts, and past it `s`
      continues as `a` does. */
  lemma PrefixOfSuffix<T>(s: seq<T>, a: seq<T>, r: seq<T>)
    requires |a| <= |s| && a == s[|s| - |a|..]
    requires |r| <= |a| && r == a[..|r|]
    ensures r == s[|s| - |a|..|s| - |a| + |r|]
  {
  }

  /** Trimming twice is trimming once. */
  lemma TrimIdempotent(s: string)
    ensures Trim(Trim(s)) == Trim(s)
  {
    TrimSpec(s);
    var t := Trim(s);
    assert TrimStart(t) == t;
    assert TrimEnd(t) == t;
  }

  // ---------------------------------------------------------------------------
  // split / join on one separator character

  /** JavaScript's `s.split(sep)` for a one-character separator: empty pieces are kept, and the
      empty string splits into one empty piece. */
  function Split(s: string, sep: char): (parts: seq<string>)
    ensures |parts| >= 1
    ensures forall i :: 0 <= i < |parts| ==> sep !in parts[i]
    decreases |s|
  {
    if |s| == 0 then [""]
    else if s[0] == sep then [""] + Split(s[1..], sep)
    else
      var rest := Split(s[1..], sep);
      [[s[0]] + rest[0]] + rest[1..]
  }

  /** JavaScript's `parts.join(sep)`. */
  function Join(parts: seq<string>, sep: char): string
    requires |parts| >= 1
    decreases |parts|
  {
    if |parts| == 1 then parts[0] else parts[0] + [sep] + Join(parts[1..], sep)
  }

  /** Joining the pieces of a split gives back the original string. */
  lemma {:induction false} JoinSplit(s: string, sep: char)
    ensures Join(Split(s, sep), sep) == s
    decreases |s|
  {
    if |s| == 0 {
    } else if s[0] == sep {
      JoinSplit(s[1..], sep);
      JoinAfterEmpty(Split(s[1..], sep), sep);
      assert s == [s[0]] + s[1..];
    } else {
      JoinSplit(s[1..], sep);
      JoinExtendsFirst(s[0], Split(s[1..], sep), sep);
      assert s == [s[0]] + s[1..];
    }
  }

  /** An empty first piece leaves just the separator in front. */
  lemma JoinAfterEmpty(rest: seq<string>, sep: char)
    requires |rest| >= 1
    ensures Join([""] + rest, sep) == [sep] + Join(rest, sep)
  {
    assert ([""] + rest)[1..] == rest;
  }

  /** Putting a character in front of the first piece puts it in front of the join. */
  lemma JoinExtendsFirst(c: char, rest: seq<string>, sep: char)
    requires |rest| >= 1
    ensures Join([[c] + rest[0]] + rest[1..], sep) == [c] + Join(rest, sep)
  {
    var parts := [[c] + rest[0]] + rest[1..];
    if |rest| > 1 {
      assert parts[1..] == rest[1..];
    }
  }

  /** Splitting a join of separator-free pieces gives back the pieces. */
  lemma {:induction false} SplitJoin(parts: seq<string>, sep: char)
    requires |parts| >= 1
    requires forall i :: 0 <= i < |parts| ==> sep !in parts[i]
    ensures Split(Join(parts, sep), sep) == parts
    decreases |parts|, |parts[0]|
  {
    var p := parts[0];
    if |p| == 0 {
      if |parts| == 1 {
      } else {
        SplitJoin(parts[1..], sep);
        var j := Join(parts, sep);
        assert j == [sep] + Join(parts[1..], sep);
        assert j[1..] == Join(parts[1..], sep);
        assert [""] + parts[1..] == parts;
      }
    } else {
      var parts' := [p[1..]] + parts[1..];
      assert sep !in parts'[0] by {
        forall c | c in p[1..] ensures c != sep {
          assert c in p;
        }
      }
      SplitJoin(parts', sep);
      var j := Join(parts, sep);
      assert |parts'| == |parts|;
      if |parts| == 1 {
        assert j == p;
        assert Join(parts', sep) == p[1..];
      } else {
        assert parts'[1..] == parts[1..];
        assert j == p + [sep] + Join(parts[1..], sep);
        assert Join(parts', sep) == p[1..] + [sep] + Join(parts[1..], sep);
        assert j[1..] == Join(parts', sep);
      }
      assert j[0] == p[0] && p[0] != sep by { assert p[0] in p; }
      assert j[1..] == Join(parts', sep);
      var rest := Split(j[1..], sep);
      assert rest == parts';
      assert Split(j, sep) == [[p[0]] + p[1..]] + parts[1..];
      assert [p[0]] + p[1..] == p;
      assert [p] + parts[1..] == parts;
    }
  }

  /** `s.split(sep).map(x => x.trim())`: the comma-separated list parsing used for tags. */
  function SplitTrimmed(s: string, sep: char): (r: seq<string>)
    ensures |r| == |Split(s, sep)| >= 1
  {
    var parts := Split(s, sep);
    seq(|parts|, i requires 0 <= i < |parts| => Trim(parts[i]))
  }

  /** Every parsed item is trimmed and separator-free, and is the trimmed piece at its position. */
  lemma SplitTrimmedSpec(s: string, sep: char)
    ensures var r := SplitTrimmed(s, sep);
      forall i :: 0 <= i < |r| ==> r[i] == Trim(Split(s, sep)[i]) && IsTrimmed(r[i]) && sep !in r[i]
  {
    var parts := Split(s, sep);
    var r := SplitTrimmed(s, sep);
    forall i | 0 <= i < |r| ensures IsTrimmed(r[i]) && sep !in r[i] {
      TrimKeepsOut(parts[i], sep);
    }
  }

  /** Trimming adds no character: what `s` lacks, its trim lacks. */
  lemma TrimKeepsOut(s: string, c: char)
    requires c !in s
    ensures IsTrimmed(Trim(s)) && c !in Trim(s)
  {
    TrimSpec(s);
    var k := |s| - |TrimStart(s)|;
    var r := Trim(s);
    assert r == s[k..k + |r|];
    assert forall d :: d in r ==> d in s;
  }

  /** When no piece carries surrounding whitespace, parsing and joining back with the
      separator reproduces the input, and parsing a join of trimmed, separator-free items gives
      back the items. */
  lemma SplitTrimmedJoin(s: string, sep: char)
    requires forall i :: 0 <= i < |Split(s, sep)| ==> IsTrimmed(Split(s, sep)[i])
    ensures Join(SplitTrimmed(s, sep), sep) == s
  {
    var parts := Split(s, sep);
    forall i | 0 <= i < |parts| ensures Trim(parts[i]) == parts[i] {
      TrimOfTrimmed(parts[i]);
    }
    assert SplitTrimmed(s, sep) == parts;
    JoinSplit(s, sep);
  }

  lemma JoinSplitTrimmed(items: seq<string>, sep: char)
    requires |items| >= 1
    requires forall i :: 0 <= i < |items| ==> IsTrimmed(items[i]) && sep !in items[i]
    ensures SplitTrimmed(Join(items, sep), sep) == items
  {
    SplitJoin(items, sep);
    forall i | 0 <= i < |items| ensures Trim(items[i]) == items[i] {
      TrimOfTrimmed(items[i]);
    }
  }

  /** A trimmed string is its own trim. */
  lemma TrimOfTrimmed(s: string)
    requires IsTrimmed(s)
    ensures Trim(s) == s
  {
    TrimStartOfTrimmed(s);
  }

  lemma TrimStartOfTrimmed(s: string)
    requires IsTrimmed(s)
    ensures TrimStart(s) == s
  {
  }

  /** JavaScript's `s.split(sep).pop()`: the text after the last separator, or all of `s`. */
  function LastPiece(s: string, sep: char): string
  {
    var parts := Split(s, sep);
    parts[|parts| - 1]
  }

  /** The last piece is the longest separator-free suffix: it is a suffix of `s`, holds no
      separator, and is either all of `s` or preceded by a separator. */
  lemma {:induction false} LastPieceSpec(s: string, sep: char)
    ensures var r := LastPiece(s, sep);
      && |r| <= |s| && r == s[|s| - |r|..] && sep !in r
      && (|r| == |s| || s[|s| - |r| - 1] == sep)
    decreases |s|
  {
    if |s| > 0 {
      LastPieceSpec(s[1..], sep);
      var rest := Split(s[1..], sep);
      if s[0] == sep {
        LastPieceAfterSep(s, sep);
      } else if |rest| == 1 {
        LastPieceSingle(s, sep);
      } else {
        LastPieceMany(s, sep);
      }
    }
  }

  lemma LastPieceAfterSep(s: string, sep: char)
    requires |s| > 0 && s[0] == sep
    requires var r := LastPiece(s[1..], sep); var t := s[1..];
      && |r| <= |t| && r == t[|t| - |r|..] && sep !in r && (|r| == |t| || t[|t| - |r| - 1] == sep)
    ensures var r := LastPiece(s, sep);
      && |r| <= |s| && r == s[|s| - |r|..] && sep !in r
      && (|r| == |s| || s[|s| - |r| - 1] == sep)
  {
    var t := s[1..];
    var rest := Split(t, sep);
    assert Split(s, sep) == [""] + rest;
    var r := LastPiece(s, sep);
    assert r == LastPiece(t, sep);
    if |r| < |t| {
      assert s[|s| - |r| - 1] == t[|t| - |r| - 1];
    } else {
      assert s[|s| - |r| - 1] == s[0];
    }
  }

  lemma LastPieceSingle(s: string, sep: char)
    requires |s| > 0 && s[0] != sep && |Split(s[1..], sep)| == 1
    ensures LastPiece(s, sep) == s && sep !in s
  {
    var t := s[1..];
    var rest := Split(t, sep);
    JoinSplit(t, sep);
    assert Join(rest, sep) == rest[0] == t;
    assert Split(s, sep) == [[s[0]] + t];
    assert s == [s[0]] + t;
  }

  lemma LastPieceMany(s: string, sep: char)
    requires |s| > 0 && s[0] != sep && |Split(s[1..], sep)| > 1
    requires var r := LastPiece(s[1..], sep); var t := s[1..];
      && |r| <= |t| && r == t[|t| - |r|..] && sep !in r && (|r| == |t| || t[|t| - |r| - 1] == sep)
    ensures var r := LastPiece(s, sep);
      && |r| <= |s| && r == s[|s| - |r|..] && sep !in r
      && (|r| == |s| || s[|s| - |r| - 1] == sep)
  {
    var t := s[1..];
    var rest := Split(t, sep);
    var parts := Split(s, sep);
    assert parts == [[s[0]] + rest[0]] + rest[1..];
    var r := LastPiece(s, sep);
    assert r == rest[|rest| - 1] == LastPiece(t, sep);
    assert |r| < |t| by {
      JoinSplit(t, sep);
      assert Join(rest, sep) == rest[0] + [sep] + Join(rest[1..], sep);
      JoinTail(rest[1..], sep);
      assert rest[1..][|rest[1..]| - 1] == r;
    }
    assert s[|s| - |r| - 1] == t[|t| - |r| - 1];
    assert r == s[|s| - |r|..];
  }

  /** A string without the separator splits into itself. */
  lemma {:induction false} SplitNoSep(s: string, sep: char)
    requires sep !in s
    ensures Split(s, sep) == [s]
    decreases |s|
  {
    if |s| > 0 {
      assert sep !in s[1..] by {
        forall c | c in s[1..] ensures c != sep { assert c in s; }
      }
      SplitNoSep(s[1..], sep);
      assert [s[0]] + s[1..] == s;
    }
  }

  /** Splitting at a first separator: the separator-free text before it is the first piece,
      and the rest splits on its own. */
  lemma {:induction false} SplitFirst(a: string, rest: string, sep: char)
    requires sep !in a
    ensures Split(a + [sep] + rest, sep) == [a] + Split(rest, sep)
    decreases |a|
  {
    var s := a + [sep] + rest;
    if |a| == 0 {
      assert s[0] == sep && s[1..] == rest;
    } else {
      assert s[0] == a[0] && s[1..] == a[1..] + [sep] + rest;
      assert sep !in a[1..] by {
        forall c | c in a[1..] ensures c != sep { assert c in a; }
      }
      SplitFirst(a[1..], rest, sep);
      assert [a[0]] + a[1..] == a;
    }
  }

  /** A string splits into more than one piece exactly when it holds the separator. */
  lemma SplitManyIff(s: string, sep: char)
    ensures |Split(s, sep)| >= 2 <==> sep in s
  {
    JoinSplit(s, sep);
    if sep !in s {
      SplitNoSep(s, sep);
    }
  }

  /** A string without the separator is its own last piece. */
  lemma LastPieceNoSep(s: string, sep: char)
    requires sep !in s
    ensures LastPiece(s, sep) == s
  {
    SplitNoSep(s, sep);
  }

  /** In a string holding the separator, the last piece follows the last separator, and that
      separator opens the string exactly when no other separator follows the first character. */
  lemma LastSepPosition(s: string, sep: char)
    requires sep in s
    ensures var a := LastPiece(s, sep);
      var d := |s| - |a| - 1;
      && 0 <= d && s[d..] == [sep] + a
      && (d == 0 <==> s[0] == sep && sep !in s[1..])
  {
    LastPieceSpec(s, sep);
    var a := LastPiece(s, sep);
    var d := |s| - |a| - 1;
    assert s[d..] == [sep] + a;
    assert d > 0 ==> sep in s[1..] by {
      if d > 0 {
        assert s[1..][d - 1] == sep;
      }
    }
    assert d == 0 ==> s[1..] == a;
  }

  /** The last piece is what follows the last separator. */
  lemma LastPieceAfterLast(x: string, e: string, sep: char)
    requires sep !in e
    ensures LastPiece(x + [sep] + e, sep) == e
  {
    var s := x + [sep] + e;
    var r := LastPiece(s, sep);
    LastPieceSpec(s, sep);
    assert |r| == |e| by {
      assert s[|s| - |e| - 1] == sep;
    }
    assert r == s[|s| - |e|..] == e;
  }

  /** The joined string is at least as long as its last piece. */
  lemma {:induction false} JoinTail(parts: seq<string>, sep: char)
    requires |parts| >= 1
    ensures |Join(parts, sep)| >= |parts[|parts| - 1]|
    decreases |parts|
  {
    if |parts| > 1 {
      JoinTail(parts[1..], sep);
    }
  }

  // ---------------------------------------------------------------------------
  // substring search

  /** `p` is a prefix of `s`. */
  predicate StartsWith(s: string, p: string)
  {
    |p| <= |s| && s[..|p|] == p
  }

  /** `p` is a suffix of `s`. */
  predicate EndsWith(s: string, p: string)
  {
    |p| <= |s| && s[|s| - |p|..] == p
  }

  /** JavaScript's `s.includes(p)`: `p` occurs somewhere in `s`. */
  predicate Contains(s: string, p: string)
    decreases |s|
  {
    StartsWith(s, p) || (|s| > 0 && Contains(s[1..], p))
  }

  /** `p` occurs in `s` starting at index `i`. */
  predicate OccursAt(s: string, p: string, i: nat)
  {
    i + |p| <= |s| && s[i..i + |p|] == p
  }

  /** An occurrence found by `Contains` has a position. */
  lemma {:induction false} ContainsOccurs(s: string, p: string) returns (i: nat)
    requires Contains(s, p)
    ensures OccursAt(s, p, i)
    decreases |s|
  {
    if StartsWith(s, p) {
      i := 0;
    } else {
      var j := ContainsOccurs(s[1..], p);
      assert s[j + 1..j + 1 + |p|] == s[1..][j..j + |p|];
      i := j + 1;
    }
  }

  /** An occurrence at any position is found by `Contains`. */
  lemma {:induction false} OccursContains(s: string, p: string, i: nat)
    requires OccursAt(s, p, i)
    ensures Contains(s, p)
    decreases i
  {
    if i > 0 {
      assert s[1..][i - 1..i - 1 + |p|] == s[i..i + |p|];
      OccursContains(s[1..], p, i - 1);
    }
  }

  /** `Contains` agrees with the positional definition of a substring occurrence. */
  lemma ContainsIff(s: string, p: string)
    ensures Contains(s, p) <==> exists i: nat :: OccursAt(s, p, i)
  {
    if Contains(s, p) {
      var i := ContainsOccurs(s, p);
    }
    if exists i: nat :: OccursAt(s, p, i) {
      var i: nat :| OccursAt(s, p, i);
      OccursContains(s, p, i);
    }
  }

  /** Every string contains itself. */
  lemma ContainsSelf(s: string)
    ensures Contains(s, s)
  {
    assert StartsWith(s, s);
  }

  /** No occurrence in a string shorter than the pattern. */
  lemma ContainsShorter(s: string, p: string)
    requires |s| < |p|
    ensures !Contains(s, p)
  {
    if Contains(s, p) {
      var i := ContainsOccurs(s, p);
    }
  }

  // ---------------------------------------------------------------------------
  // UTF-16 length

  /** A character JavaScript stores as one UTF-16 code unit (in the Basic Multilingual Plane). */
  predicate IsBmp(c: char)
  {
    c as int <= 0xFFFF
  }

  /** `String.prototype.length`: UTF-16 code units, so a character above U+FFFF counts twice. */
  function Utf16Length(s: string): (n: nat)
    ensures |s| <= n <= 2 * |s|
    ensures n == |s| <==> forall i :: 0 <= i < |s| ==> IsBmp(s[i])
  {
    if |s| == 0 then 0
    else
      var n := (if IsBmp(s[0]) then 1 else 2) + Utf16Length(s[1..]);
      assert (forall i :: 0 <= i < |s| ==> IsBmp(s[i])) <==>
             IsBmp(s[0]) && forall i :: 0 <= i < |s| - 1 ==> IsBmp(s[1..][i]) by {
        if forall i :: 0 <= i < |s| - 1 ==> IsBmp(s[1..][i]) {
          assert forall i :: 1 <= i < |s| ==> s[i] == s[1..][i - 1];
        }
      }
      n
  }

  /** The code-unit length of a concatenation is the sum of the parts' lengths. */
  lemma {:induction false} Utf16LengthConcat(a: string, b: string)
    ensures Utf16Length(a + b) == Utf16Length(a) + Utf16Length(b)
  {
    if |a| > 0 {
      assert (a + b)[0] == a[0] && (a + b)[1..] == a[1..] + b;
      Utf16LengthConcat(a[1..], b);
    } else {
      assert a + b == b;
    }
  }

  /** "abcd😀": five characters, six code units. */
  lemma AstralCountsTwice()
    ensures |"abcd\U{1F600}"| == 5 && Utf16Length("abcd\U{1F600}") == 6
  {
    assert !IsBmp('\U{1F600}');
    Utf16LengthConcat("abcd", "\U{1F600}");
    assert "abcd" + "\U{1F600}" == "abcd\U{1F600}";
  }

  // ---------------------------------------------------------------------------
  // ASCII case mapping

  /** ASCII lower-casing of one character. */
  function LowerChar(c: char): char
  {
    if 'A' <= c <= 'Z' then (c as int + 32) as char else c
  }

  /** ASCII upper-casing of one character. */
  function UpperChar(c: char): char
  {
    if 'a' <= c <= 'z' then (c as int - 32) as char else c
  }

  predicate IsUpperAscii(c: char)
  {
    'A' <= c <= 'Z'
  }

  predicate IsLowerAscii(c: char)
  {
    'a' <= c <= 'z'
  }

  /** `s.toLowerCase()`, restricted to ASCII letters: the same letters position by position,
      none of them upper-case; a string without upper-case letters is its own lower-case. */
  function Lower(s: string): (r: string)
    ensures |r| == |s|
    ensures forall i :: 0 <= i < |r| ==> !IsUpperAscii(r[i]) && UpperChar(r[i]) == UpperChar(s[i])
    ensures r == s <==> forall i :: 0 <= i < |s| ==> !IsUpperAscii(s[i])
  {
    var r := seq(|s|, i requires 0 <= i < |s| => LowerChar(s[i]));
    assert (forall i :: 0 <= i < |s| ==> !IsUpperAscii(s[i])) ==> r == s;
    assert r == s ==> forall i :: 0 <= i < |s| ==> !IsUpperAscii(s[i]) by {
      if r == s {
        forall i | 0 <= i < |s| ensures !IsUpperAscii(s[i]) {
          assert r[i] == LowerChar(s[i]);
        }
      }
    }
    r
  }

  /** `s.toUpperCase()`, restricted to ASCII letters: the same letters position by position,
      none of them lower-case; a string without lower-case letters is its own upper-case. */
  function Upper(s: string): (r: string)
    ensures |r| == |s|
    ensures forall i :: 0 <= i < |r| ==> !IsLowerAscii(r[i]) && LowerChar(r[i]) == LowerChar(s[i])
    ensures r == s <==> forall i :: 0 <= i < |s| ==> !IsLowerAscii(s[i])
  {
    var r := seq(|s|, i requires 0 <= i < |s| => UpperChar(s[i]));
    assert (forall i :: 0 <= i < |s| ==> !IsLowerAscii(s[i])) ==> r == s;
    assert r == s ==> forall i :: 0 <= i < |s| ==> !IsLowerAscii(s[i]) by {
      if r == s {
        forall i | 0 <= i < |s| ensures !IsLowerAscii(s[i]) {
          assert r[i] == UpperChar(s[i]);
        }
      }
    }
    r
  }

  /** Upper-casing after lower-casing is upper-casing. */
  lemma UpperLower(s: string)
    ensures Upper(Lower(s)) == Upper(s)
  {
    forall i | 0 <= i < |s| ensures Upper(Lower(s))[i] == Upper(s)[i] {
      assert Upper(s)[i] == UpperChar(s[i]);
      assert Lower(s)[i] == LowerChar(s[i]);
    }
  }

  /** Lower-casing after upper-casing is lower-casing. */
  lemma LowerUpper(s: string)
    ensures Lower(Upper(s)) == Lower(s)
  {
    forall i | 0 <= i < |s| ensures Lower(Upper(s))[i] == Lower(s)[i] {
      assert Upper(s)[i] == UpperChar(s[i]);
      assert Lower(s)[i] == LowerChar(s[i]);
    }
  }

  /** Lower-casing twice is lower-casing once. */
  lemma LowerIdempotent(s: string)
    ensures Lower(Lower(s)) == Lower(s)
  {
  }

  /** Case-insensitive containment: the semantics of a `$regex` filter with option `i` on a
      pattern without metacharacters. */
  predicate ContainsCI(s: string, p: string)
  {
    Contains(Lower(s), Lower(p))
  }
}
