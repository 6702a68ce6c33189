/** The pieces of Go's standard library that the inspection core leans on, modelled on
    Dafny strings (sequences of Unicode characters) and byte sequences:
    strings.HasPrefix, strings.HasSuffix, strings.Replace with n = -1, strings.Split with a
    one-character separator, strings.Join, bytes.Index with a one-byte separator, and
    filepath.Base on a Unix host. */
module Text {

  newtype byte = b: int | 0 <= b < 256

  /** strings.HasPrefix, and bytes.HasPrefix on byte sequences. */
  predicate HasPrefix<T(==)>(s: seq<T>, prefix: seq<T>)
  {
    |prefix| <= |s| && s[..|prefix|] == prefix
  }

  predicate HasSuffix(s: string, suffix: string)
  {
    |suffix| <= |s| && s[|s| - |suffix|..] == suffix
  }

  /** strings.Replace(s, pattern, replacement, -1): every non-overlapping occurrence of a
      non-empty pattern, found scanning left to right, is replaced. */
  function ReplaceAll(s: string, pattern: string, replacement: string): (r: string)
    requires pattern != []
    ensures |replacement| <= |pattern| ==> |r| <= |s|
    decreases |s|
  {
    if |s| < |pattern| then s
    else if s[..|pattern|] == pattern then replacement + ReplaceAll(s[|pattern|..], pattern, replacement)
    else [s[0]] + ReplaceAll(s[1..], pattern, replacement)
  }

  /** Character-wise substitution: every c becomes d, every other character stays. */
  function Substitute(s: string, c: char, d: char): string
  {
    seq(|s|, i requires 0 <= i < |s| => if s[i] == c then d else s[i])
  }

  lemma SubstituteAppend(a: string, b: string, c: char, d: char)
    ensures Substitute(a + b, c, d) == Substitute(a, c, d) + Substitute(b, c, d)
  {
    var l, r := Substitute(a + b, c, d), Substitute(a, c, d) + Substitute(b, c, d);
    assert |l| == |r|;
    forall i | 0 <= i < |l| ensures l[i] == r[i] {
      if i < |a| { assert (a + b)[i] == a[i]; } else { assert (a + b)[i] == b[i - |a|]; }
    }
  }

  /** Replacing a one-character pattern by a one-character replacement is a character-wise
      substitution. */
  lemma {:induction false} ReplaceSingleChar(s: string, c: char, d: char)
    ensures ReplaceAll(s, [c], [d]) == Substitute(s, c, d)
    decreases |s|
  {
    if |s| >= 1 {
      ReplaceSingleChar(s[1..], c, d);
      assert s == [s[0]] + s[1..];
      SubstituteAppend([s[0]], s[1..], c, d);
    }
  }

  /** After replacing a one-character pattern by a different character, the pattern is gone. */
  lemma ReplaceCharRemoves(s: string, c: char, d: char)
    requires c != d
    ensures c !in ReplaceAll(s, [c], [d])
  {
    ReplaceSingleChar(s, c, d);
    var r := Substitute(s, c, d);
    forall i | 0 <= i < |r| ensures r[i] != c {}
  }

  /** A replacement that does not introduce a character keeps it absent. */
  lemma {:induction false} ReplaceKeepsAbsent(s: string, pattern: string, replacement: string, x: char)
    requires pattern != []
    requires x !in s && x !in replacement
    ensures x !in ReplaceAll(s, pattern, replacement)
    decreases |s|
  {
    if |s| >= |pattern| {
      if s[..|pattern|] == pattern {
        ReplaceKeepsAbsent(s[|pattern|..], pattern, replacement, x);
      } else {
        ReplaceKeepsAbsent(s[1..], pattern, replacement, x);
      }
    }
  }

  /** A stretch of text that cannot start an occurrence of the pattern is copied as it is. */
  lemma {:induction false} ReplaceAllSkipsFree(a: string, b: string, pattern: string, replacement: string)
    requires pattern != [] && pattern[0] !in a
    ensures ReplaceAll(a + b, pattern, replacement) == a + ReplaceAll(b, pattern, replacement)
    decreases |a|
  {
    if a == [] {
      assert a + b == b;
    } else {
      var s := a + b;
      assert s[0] == a[0] && a[0] in a;
      ReplaceAllMismatch(s, pattern, replacement, 0);
      assert s[1..] == a[1..] + b;
      assert pattern[0] !in a[1..] by { assert forall x :: x in a[1..] ==> x in a; }
      ReplaceAllSkipsFree(a[1..], b, pattern, replacement);
      assert a == [a[0]] + a[1..];
    }
  }

  /** Where the text disagrees with the pattern at some position k, no occurrence starts at the
      front and the first character is copied. */
  lemma ReplaceAllMismatch(s: string, pattern: string, replacement: string, k: nat)
    requires s != [] && k < |pattern|
    requires k >= |s| || s[k] != pattern[k]
    ensures ReplaceAll(s, pattern, replacement) == [s[0]] + ReplaceAll(s[1..], pattern, replacement)
  {
    if |s| >= |pattern| {
      assert s[..|pattern|][k] != pattern[k];
    } else {
      assert s == [s[0]] + s[1..];
    }
  }

  /** An occurrence of the pattern at the front is replaced. */
  lemma ReplaceAllMatch(b: string, pattern: string, replacement: string)
    requires pattern != []
    ensures ReplaceAll(pattern + b, pattern, replacement) == replacement + ReplaceAll(b, pattern, replacement)
  {
    var s := pattern + b;
    assert s[..|pattern|] == pattern;
    assert s[|pattern|..] == b;
  }

  /** strings.Split(s, string(sep)): the pieces of s between the occurrences of sep. An empty
      s gives one empty piece, and a trailing separator gives a trailing empty piece. */
  function Split(s: string, sep: char): (parts: seq<string>)
    ensures |parts| >= 1
    decreases |s|
  {
    if s == [] then [""]
    else
      var rest := Split(s[1..], sep);
      if s[0] == sep then [""] + rest
      else [[s[0]] + rest[0]] + rest[1..]
  }

  /** strings.Join(parts, string(sep)). */
  function Join(parts: seq<string>, sep: char): string
  {
    if parts == [] then ""
    else if |parts| == 1 then parts[0]
    else parts[0] + [sep] + Join(parts[1..], sep)
  }

  /** Joining the pieces of a split gives back the original string. */
  lemma {:induction false} JoinSplit(s: string, sep: char)
    ensures Join(Split(s, sep), sep) == s
    decreases |s|
  {
    if s != [] {
      var rest := Split(s[1..], sep);
      JoinSplit(s[1..], sep);
      if s[0] == sep {
        assert Split(s, sep) == [""] + rest;
        assert s == [sep] + s[1..];
      } else {
        var parts := Split(s, sep);
        assert parts == [[s[0]] + rest[0]] + rest[1..];
        if |rest| == 1 {
          assert s == [s[0]] + rest[0];
        } else {
          assert Join(rest, sep) == rest[0] + [sep] + Join(rest[1..], sep);
          assert parts[1..] == rest[1..];
          assert s == [s[0]] + (rest[0] + [sep] + Join(rest[1..], sep));
        }
      }
    }
  }

  /** No piece of a split contains the separator. */
  lemma {:induction false} SplitPiecesExcludeSep(s: string, sep: char)
    ensures forall k :: 0 <= k < |Split(s, sep)| ==> sep !in Split(s, sep)[k]
    decreases |s|
  {
    if s != [] {
      SplitPiecesExcludeSep(s[1..], sep);
      var rest := Split(s[1..], sep);
      var parts := Split(s, sep);
      if s[0] != sep {
        forall k | 0 <= k < |parts| ensures sep !in parts[k] {
          if k == 0 {
            assert parts[0] == [s[0]] + rest[0];
          } else {
            assert parts[k] == rest[k];
          }
        }
      } else {
        forall k | 0 <= k < |parts| ensures sep !in parts[k] {
          if k > 0 { assert parts[k] == rest[k - 1]; }
        }
      }
    }
  }

  /** Splitting a join of separator-free pieces gives back exactly those pieces. */
  lemma {:induction false} SplitJoin(parts: seq<string>, sep: char)
    requires |parts| >= 1
    requires forall k :: 0 <= k < |parts| ==> sep !in parts[k]
    ensures Split(Join(parts, sep), sep) == parts
    decreases |parts|, |parts[0]|
  {
    var p := parts[0];
    if |parts| == 1 {
      SplitFree(p, sep);
    } else if p == [] {
      SplitJoin(parts[1..], sep);
      SplitJoinEmptyHead(parts, sep);
    } else {
      var shorter := [p[1..]] + parts[1..];
      assert sep !in p[1..] by { assert forall x :: x in p[1..] ==> x in p; }
      assert forall k :: 0 <= k < |shorter| ==> sep !in shorter[k] by {
        forall k | 0 <= k < |shorter| ensures sep !in shorter[k] {
          if k > 0 { assert shorter[k] == parts[k]; }
        }
      }
      SplitJoin(shorter, sep);
      SplitJoinHeadChar(parts, sep);
    }
  }

  /** The step of SplitJoin for an empty first piece. */
  lemma SplitJoinEmptyHead(parts: seq<string>, sep: char)
    requires |parts| >= 2 && parts[0] == []
    requires Split(Join(parts[1..], sep), sep) == parts[1..]
    ensures Split(Join(parts, sep), sep) == parts
  {
    var tail := Join(parts[1..], sep);
    assert Join(parts, sep) == [sep] + tail;
    assert ([sep] + tail)[1..] == tail;
    assert parts == [""] + parts[1..];
  }

  /** The step of SplitJoin that moves the first character of a non-empty first piece. */
  lemma SplitJoinHeadChar(parts: seq<string>, sep: char)
    requires |parts| >= 2 && parts[0] != [] && parts[0][0] != sep
    requires Split(Join([parts[0][1..]] + parts[1..], sep), sep) == [parts[0][1..]] + parts[1..]
    ensures Split(Join(parts, sep), sep) == parts
  {
    var p := parts[0];
    var shorter := [p[1..]] + parts[1..];
    var j := Join(parts, sep);
    var js := Join(shorter, sep);
    assert p == [p[0]] + p[1..];
    assert shorter[1..] == parts[1..];
    assert j == [p[0]] + js;
    assert j[1..] == js;
    assert parts == [[p[0]] + shorter[0]] + shorter[1..];
  }

  /** A string free of the separator splits into itself. */
  lemma {:induction false} SplitFree(s: string, sep: char)
    requires sep !in s
    ensures Split(s, sep) == [s]
    decreases |s|
  {
    if s != [] {
      assert forall x :: x in s[1..] ==> x in s;
      SplitFree(s[1..], sep);
      assert s == [s[0]] + s[1..];
    }
  }

  /** bytes.Index(data, []byte{b}): the index of the first b, or -1 when there is none. */
  function IndexByte(data: seq<byte>, b: byte): (i: int)
    ensures -1 <= i < |data|
    ensures i == -1 <==> b !in data
    ensures 0 <= i ==> data[i] == b && b !in data[..i]
    decreases |data|
  {
    if data == [] then -1
    else if data[0] == b then 0
    else
      var j := IndexByte(data[1..], b);
      if j < 0 then -1 else 1 + j
  }

  /** The longest suffix of s that holds no '/'. */
  function LastElement(s: string): (e: string)
    ensures '/' !in e
    ensures HasSuffix(s, e)
    ensures |e| < |s| ==> s[|s| - |e| - 1] == '/'
    decreases |s|
  {
    if s == [] || s[|s| - 1] == '/' then []
    else LastElement(s[..|s| - 1]) + [s[|s| - 1]]
  }

  /** s without its trailing '/' characters. */
  function TrimTrailingSlashes(s: string): (t: string)
    ensures HasPrefix(s, t)
    ensures t == [] || t[|t| - 1] != '/'
    ensures forall k :: |t| <= k < |s| ==> s[k] == '/'
    decreases |s|
  {
    if s != [] && s[|s| - 1] == '/' then TrimTrailingSlashes(s[..|s| - 1]) else s
  }

  /** filepath.Base on a Unix host: "." for an empty path, "/" for a path of slashes only,
      otherwise the last element once trailing slashes are removed. */
  function Base(path: string): (b: string)
    ensures b != []
    ensures b == "/" || '/' !in b
  {
    if path == [] then "."
    else
      var trimmed := TrimTrailingSlashes(path);
      if trimmed == [] then "/" else LastElement(trimmed)
  }

  /** Whatever the directory, the last element of dir/name is name. */
  lemma {:induction false} LastElementAfterSlash(dir: string, name: string)
    requires '/' !in name
    ensures LastElement(dir + "/" + name) == name
    decreases |name|
  {
    var path := dir + "/" + name;
    if name != [] {
      var init := name[..|name| - 1];
      assert '/' !in init by { assert forall x :: x in init ==> x in name; }
      LastElementAfterSlash(dir, init);
      assert path[..|path| - 1] == dir + "/" + init;
      assert path[|path| - 1] == name[|name| - 1];
      assert name == init + [name[|name| - 1]];
    }
  }

  /** filepath.Base of a file name under any directory is the file name. */
  lemma BaseOfChild(dir: string, name: string)
    requires name != [] && '/' !in name
    ensures Base(dir + "/" + name) == name
  {
    var path := dir + "/" + name;
    assert path[|path| - 1] == name[|name| - 1];
    assert name[|name| - 1] in name;
    assert TrimTrailingSlashes(path) == path;
    LastElementAfterSlash(dir, name);
  }
}
