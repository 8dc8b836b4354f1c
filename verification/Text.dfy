/** Byte strings as the C and C++ code sees them: NUL-terminated copies, and
    streams that are split at newlines. */
module Text {

  /** Position of the first `c`, or `|s|` when there is none (`strchr`, `find`, `strcspn`). */
  function Find(s: string, c: char): (n: nat)
    ensures n <= |s|
    ensures c !in s[..n]
    ensures n < |s| ==> s[n] == c
  {
    if s == "" || s[0] == c then 0 else
      var n := 1 + Find(s[1..], c);
      assert s[..n] == [s[0]] + s[1..][..n - 1];
      n
  }

  lemma FindIs(s: string, c: char, n: nat)
    requires n <= |s| && c !in s[..n] && (n < |s| ==> s[n] == c)
    ensures Find(s, c) == n
  {
    if n > 0 {
      assert s[0] == s[..n][0];
      assert s[1..][..n - 1] == s[..n][1..];
      FindIs(s[1..], c, n - 1);
    }
  }

  lemma FindAbsent(s: string, c: char)
    requires c !in s
    ensures Find(s, c) == |s|
  {
    assert s[..|s|] == s;
    FindIs(s, c, |s|);
  }

  lemma ConsAppend<T>(xs: seq<T>, ys: seq<T>)
    requires xs != []
    ensures [xs[0]] + (xs[1..] + ys) == xs + ys
    ensures (xs + ys)[0] == xs[0] && (xs + ys)[1..] == xs[1..] + ys
  {
  }

  /** What a C string function sees of a buffer holding `s` and a terminator. */
  function CStr(s: string): (r: string)
    ensures '\0' !in r
    ensures '\0' !in s ==> r == s
  {
    s[..Find(s, '\0')]
  }

  /** `strncpy` into a zeroed field of `size` bytes: at most `size - 1` are kept. */
  function Field(s: string, size: nat): (r: string)
    requires size > 0
    ensures |r| < size && '\0' !in r
    ensures '\0' !in s && |s| < size ==> r == s
  {
    var t := CStr(s);
    if |t| < size then t else t[..size - 1]
  }

  /** The complete lines of a stream, without their newlines. */
  function Lines(s: string): seq<string>
    decreases |s|
  {
    var n := Find(s, '\n');
    if n == |s| then [] else [s[..n]] + Lines(s[n + 1..])
  }

  /** What follows the last newline. */
  function Tail(s: string): (t: string)
    ensures '\n' !in t
    ensures |t| <= |s|
    ensures '\0' !in s ==> '\0' !in t
    decreases |s|
  {
    var n := Find(s, '\n');
    if n == |s| then s[..n] else Tail(s[n + 1..])
  }

  function Join(ls: seq<string>, t: string): string
  {
    if ls == [] then t else ls[0] + "\n" + Join(ls[1..], t)
  }

  predicate NewlineFree(ls: seq<string>) {
    forall i | 0 <= i < |ls| :: '\n' !in ls[i]
  }

  lemma CutAt(s: string, n: nat)
    requires n < |s| && s[n] == '\n'
    ensures s[..n] + "\n" + s[n + 1..] == s
  {
  }

  lemma JoinCons(l: string, ls: seq<string>, t: string)
    ensures Join([l] + ls, t) == l + "\n" + Join(ls, t)
  {
    ConsAppend([l], ls);
    assert [] + ls == ls;
  }

  /** Splitting loses nothing: the lines and the leftover rebuild the stream. */
  lemma {:induction false} JoinOfSplit(s: string)
    ensures Join(Lines(s), Tail(s)) == s
    decreases |s|
  {
    var n := Find(s, '\n');
    if n == |s| {
      assert s[..n] == s;
    } else {
      JoinOfSplit(s[n + 1..]);
      JoinCons(s[..n], Lines(s[n + 1..]), Tail(s));
      CutAt(s, n);
    }
  }

  lemma {:induction false} LinesAreLines(s: string)
    ensures NewlineFree(Lines(s))
    decreases |s|
  {
    var n := Find(s, '\n');
    if n != |s| {
      LinesAreLines(s[n + 1..]);
    }
  }

  lemma LinesCons(l: string, rest: string)
    requires '\n' !in l
    ensures Lines(l + "\n" + rest) == [l] + Lines(rest)
    ensures Tail(l + "\n" + rest) == Tail(rest)
  {
    var s := l + "\n" + rest;
    assert s[..|l|] == l;
    FindIs(s, '\n', |l|);
    assert s[|l| + 1..] == rest;
  }

  lemma LinesNone(t: string)
    requires '\n' !in t
    ensures Lines(t) == [] && Tail(t) == t
  {
    FindAbsent(t, '\n');
    assert t[..|t|] == t;
  }

  /** Newline-free lines in front of a stream come out as they went in. */
  lemma {:induction false} LinesOfJoin(ls: seq<string>, rest: string)
    requires NewlineFree(ls)
    ensures Lines(Join(ls, rest)) == ls + Lines(rest)
    ensures Tail(Join(ls, rest)) == Tail(rest)
  {
    if ls == [] {
      assert ls + Lines(rest) == Lines(rest);
    } else {
      LinesOfJoin(ls[1..], rest);
      LinesCons(ls[0], Join(ls[1..], rest));
      ConsAppend(ls, Lines(rest));
    }
  }

  /** Splitting is the only way to cut a stream into newline-free lines. */
  lemma SplitOfJoin(ls: seq<string>, t: string)
    requires NewlineFree(ls) && '\n' !in t
    ensures Lines(Join(ls, t)) == ls && Tail(Join(ls, t)) == t
  {
    LinesOfJoin(ls, t);
    LinesNone(t);
  }

  lemma {:induction false} JoinThen(ls: seq<string>, t: string, b: string)
    ensures Join(ls, t) + b == Join(ls, t + b)
  {
    if ls != [] {
      JoinThen(ls[1..], t, b);
    }
  }

  /** Chunking law: a reader that keeps only the leftover sees the same lines. */
  lemma SplitAppend(a: string, b: string)
    ensures Lines(a + b) == Lines(a) + Lines(Tail(a) + b)
    ensures Tail(a + b) == Tail(Tail(a) + b)
  {
    JoinOfSplit(a);
    LinesAreLines(a);
    JoinThen(Lines(a), Tail(a), b);
    LinesOfJoin(Lines(a), Tail(a) + b);
  }

  function Concat(parts: seq<string>): string
  {
    if parts == [] then "" else parts[0] + Concat(parts[1..])
  }

  lemma {:induction false} ConcatSnoc(parts: seq<string>, p: string)
    ensures Concat(parts + [p]) == Concat(parts) + p
  {
    if parts == [] {
      assert parts + [p] == [p];
    } else {
      ConsAppend(parts, [p]);
      ConcatSnoc(parts[1..], p);
    }
  }

  /** The text a server keeps of a line: one trailing carriage return removed. */
  function StripCr(l: string): string
  {
    if l != "" && l[|l| - 1] == '\r' then l[..|l| - 1] else l
  }

  /** The lines worth handling: stripped, and not empty. */
  function Messages(ls: seq<string>): seq<string>
  {
    if ls == [] then [] else
      (if StripCr(ls[0]) == "" then [] else [StripCr(ls[0])]) + Messages(ls[1..])
  }

  lemma {:induction false} MessagesAppend(a: seq<string>, b: seq<string>)
    ensures Messages(a + b) == Messages(a) + Messages(b)
  {
    if a == [] {
      assert a + b == b;
    } else {
      ConsAppend(a, b);
      MessagesAppend(a[1..], b);
      Regroup(if StripCr(a[0]) == "" then [] else [StripCr(a[0])], Messages(a[1..]), Messages(b));
    }
  }

  lemma MessagesOne(l: string)
    ensures Messages([l]) == if StripCr(l) == "" then [] else [StripCr(l)]
  {
    assert [l][1..] == [];
    assert Messages([l][1..]) == [];
  }

  lemma MessagesSnoc(ls: seq<string>, l: string)
    ensures Messages(ls + [l]) == Messages(ls) + if StripCr(l) == "" then [] else [StripCr(l)]
  {
    MessagesAppend(ls, [l]);
    MessagesOne(l);
  }

  lemma Regroup<T>(a: seq<T>, b: seq<T>, c: seq<T>)
    ensures (a + b) + c == a + (b + c)
  {
  }

  // ----- the C string functions and the line filter in plain terms -----

  /** A C string ends at its first NUL. */
  lemma CStrEnds(a: string, b: string)
    requires '\0' !in a
    ensures CStr(a) == a && CStr(a + ("\0" + b)) == a
  {
    var s := a + ("\0" + b);
    assert s[..|a|] == a;
    FindIs(s, '\0', |a|);
  }

  /** A field holds the first `size - 1` bytes of a longer name, and a shorter one whole;
      what follows a NUL is not part of the name. */
  lemma FieldHolds(a: string, b: string, size: nat)
    requires '\0' !in a && size > 0
    ensures Field(a, size) == (if |a| < size then a else a[..size - 1]) == Field(a + ("\0" + b), size)
  {
    CStrEnds(a, b);
  }

  /** A line ended by CR and LF is a message without them, unless it is empty. */
  lemma CrLfLine(x: string)
    requires '\n' !in x
    ensures Messages(Lines(x + "\r\n")) == if x == "" then [] else [x]
  {
    assert (x + "\r") + "\n" == x + "\r\n";
    StripOne(x);
    OneLine(x + "\r");
  }

  lemma StripOne(x: string)
    ensures StripCr(x + "\r") == x
  {
    assert (x + "\r")[..|x|] == x;
  }

  lemma OneLine(l: string)
    requires '\n' !in l
    ensures Messages(Lines(l + "\n")) == if StripCr(l) == "" then [] else [StripCr(l)]
  {
    LinesCons(l, "");
    assert l + "\n" + "" == l + "\n";
    assert Lines("") == [] && [l] + [] == [l];
    MessagesOne(l);
  }

  /** So is a line ended by LF alone. */
  lemma LfLine(x: string)
    requires '\n' !in x && (x != "" ==> x[|x| - 1] != '\r')
    ensures Messages(Lines(x + "\n")) == if x == "" then [] else [x]
  {
    OneLine(x);
  }

  /** What is not ended yet is no message. */
  lemma NoLineYet(x: string)
    requires '\n' !in x
    ensures Messages(Lines(x)) == []
  {
    LinesNone(x);
  }
}
