/** The Python string operations the burner relies on: `in`, `str.replace`,
    `str.split(' ')`, `' '.join`, `str(int)` and `int(str)`. */
module Text {
  import opened Wrappers

  /** Python's `needle in hay` on strings. */
  predicate Contains(hay: string, needle: string) {
    exists i :: 0 <= i <= |hay| && OccursAt(hay, needle, i)
  }

  /** `needle` occurs in `hay` starting at index `i`. */
  predicate OccursAt(hay: string, needle: string, i: int) {
    0 <= i <= |hay| - |needle| && hay[i..i + |needle|] == needle
  }

  lemma ContainsAppendRight(a: string, b: string, needle: string)
    requires Contains(a, needle)
    ensures Contains(a + b, needle)
  {
    var i :| 0 <= i <= |a| && OccursAt(a, needle, i);
    assert (a + b)[i..i + |needle|] == a[i..i + |needle|];
    assert OccursAt(a + b, needle, i);
  }

  lemma ContainsAppendLeft(a: string, b: string, needle: string)
    requires Contains(b, needle)
    ensures Contains(a + b, needle)
  {
    var i :| 0 <= i <= |b| && OccursAt(b, needle, i);
    assert (a + b)[|a| + i..|a| + i + |needle|] == b[i..i + |needle|];
    assert OccursAt(a + b, needle, |a| + i);
  }

  /** Python's `s.replace(pat, rep)`: every non-overlapping occurrence of `pat`,
      scanned from the left, is replaced by `rep`. */
  function Replace(s: string, pat: string, rep: string): string
    requires pat != []
    decreases |s|
  {
    if |s| < |pat| then s
    else if s[..|pat|] == pat then rep + Replace(s[|pat|..], pat, rep)
    else [s[0]] + Replace(s[1..], pat, rep)
  }

  /** A string in which `pat` does not occur is left as it is by `Replace`. */
  lemma {:induction false} ReplaceAbsent(s: string, pat: string, rep: string)
    requires pat != [] && !Contains(s, pat)
    ensures Replace(s, pat, rep) == s
    decreases |s|
  {
    if |s| >= |pat| {
      assert s[0..|pat|] == s[..|pat|];
      assert !OccursAt(s, pat, 0);
      assert [s[0]] + s[1..] == s;
      if Contains(s[1..], pat) {
        ContainsAppendLeft([s[0]], s[1..], pat);
      }
      ReplaceAbsent(s[1..], pat, rep);
    }
  }

  /** Spaces of a firmware path are written as five dots inside the flash
      command string (frmMain.py, `execute_burn`) ... */
  function Escape(path: string): string {
    Replace(path, " ", ".....")
  }

  /** ... and turned back into spaces when the argument vector is built
      (frmMain.py, `run_command`). */
  function Unescape(token: string): string {
    Replace(token, ".....", " ")
  }

  /** A path the escape/unescape pair gives back unchanged: it holds no run of
      five dots, and no dot stands right before a space. */
  predicate EscapeSafe(path: string) {
    !Contains(path, ".....") && !Contains(path, ". ")
  }

  function Dots(k: nat): (d: string)
    ensures |d| == k && forall i :: 0 <= i < k ==> d[i] == '.'
  {
    if k == 0 then "" else "." + Dots(k - 1)
  }

  lemma EscapeCons(c: char, rest: string)
    ensures Escape([c] + rest) == (if c == ' ' then "....." else [c]) + Escape(rest)
  {
    var s := [c] + rest;
    assert s[..1] == [c];
    assert s[1..] == rest;
  }

  lemma EscapeSafeTail(c: char, rest: string)
    requires EscapeSafe([c] + rest)
    ensures EscapeSafe(rest)
  {
    if Contains(rest, ".....") { ContainsAppendLeft([c], rest, "....."); }
    if Contains(rest, ". ") { ContainsAppendLeft([c], rest, ". "); }
  }

  /** After `k` (1 to 4) dots, an escaped remainder that begins with the
      `5 - k` dots completing a five-dot run shows that the unescaped text
      already held five dots or a dot before a space. */
  lemma {:induction false} DotRunAhead(rest: string, k: nat)
    requires 1 <= k <= 4
    ensures |Escape(rest)| >= 5 - k && Escape(rest)[..5 - k] == Dots(5 - k) ==>
              !EscapeSafe(Dots(k) + rest)
    decreases |rest|
  {
    var s := Dots(k) + rest;
    if |Escape(rest)| >= 5 - k && Escape(rest)[..5 - k] == Dots(5 - k) {
      assert |rest| > 0;
      var c, e := rest[0], Escape(rest[1..]);
      EscapeCons(c, rest[1..]);
      assert [c] + rest[1..] == rest;
      assert Escape(rest)[0] == Dots(5 - k)[0] == '.';
      if c == ' ' {
        assert s[k - 1] == '.' && s[k] == ' ';
        assert s[k - 1..k + 1] == ". ";
        assert OccursAt(s, ". ", k - 1);
      } else if k == 4 {
        assert s[..5] == ".....";
        assert OccursAt(s, ".....", 0);
      } else {
        assert Escape(rest) == [c] + e;
        assert e[..4 - k] == Dots(4 - k) by {
          forall i | 0 <= i < 4 - k ensures e[i] == '.' {
            assert e[i] == Escape(rest)[i + 1];
          }
        }
        DotRunAhead(rest[1..], k + 1);
        assert Dots(k + 1) + rest[1..] == s by {
          forall i | 0 <= i < |s| ensures (Dots(k + 1) + rest[1..])[i] == s[i] {
            if i > k {
              assert s[i] == rest[i - k];
            }
          }
        }
      }
    }
  }

  /** Escaping a safe path and unescaping the result gives the path back. */
  lemma {:induction false} EscapeRoundTrip(path: string)
    requires EscapeSafe(path)
    ensures Unescape(Escape(path)) == path
    decreases |path|
  {
    if |path| > 0 {
      var c, rest := path[0], path[1..];
      assert [c] + rest == path;
      EscapeCons(c, rest);
      EscapeSafeTail(c, rest);
      EscapeRoundTrip(rest);
      var e := Escape(rest);
      if c == ' ' {
        var t := "....." + e;
        assert t[..5] == ".....";
        assert t[5..] == e;
      } else {
        var t := [c] + e;
        if |t| >= 5 {
          assert t[..5] == [c] + e[..4];
          if c == '.' {
            assert Dots(1) + rest == path;
            DotRunAhead(rest, 1);
            assert Dots(4) == "....";
            assert t[..5][1..] == e[..4];
          } else {
            assert t[..5][0] == c;
          }
          assert t[..5] != ".....";
        }
        assert t[1..] == e;
      }
    }
  }

  /** The round trip needs more than the absence of "....."; a dot right
      before a space is enough to break it: "a. b" comes back as "a .b". */
  lemma EscapeRoundTripDotBeforeSpace()
    ensures !Contains("a. b", ".....")
    ensures Unescape(Escape("a. b")) == "a .b"
  {
    var p := "a. b";
    EscapeCons('a', ". b");
    EscapeCons('.', " b");
    EscapeCons(' ', "b");
    EscapeCons('b', "");
    assert Escape("a. b") == "a......b";
    var e := "a......b";
    assert e[..5][0] == 'a';
    assert e[1..] == "......b";
    assert e[1..][..5] == ".....";
    assert e[1..][5..] == ".b";
    assert ".b"[..1] != ".....";
  }

  /** An occurrence of `needle` in `a + [c] + b` that cannot cover `c` lies
      in `a` or in `b`. */
  lemma ContainsAround(a: string, c: char, b: string, needle: string)
    requires forall j :: 0 <= j < |needle| ==> needle[j] != c
    requires Contains(a + [c] + b, needle)
    ensures Contains(a, needle) || Contains(b, needle)
  {
    var s := a + [c] + b;
    var i :| 0 <= i <= |s| && OccursAt(s, needle, i);
    assert s[|a|] == c;
    assert forall j :: i <= j < i + |needle| ==> s[j] == needle[j - i];
    if i + |needle| <= |a| {
      assert s[i..i + |needle|] == a[i..i + |needle|];
      assert OccursAt(a, needle, i);
    } else if i > |a| {
      assert s[i..i + |needle|] == b[i - |a| - 1..i - |a| - 1 + |needle|];
      assert OccursAt(b, needle, i - |a| - 1);
    } else {
      assert false;
    }
  }

  /** Fewer than five dots hold neither five dots nor a dot before a
      space. */
  lemma DotsSafe(k: nat)
    requires k <= 4
    ensures EscapeSafe(Dots(k))
  {
    forall i | 0 <= i <= k ensures !OccursAt(Dots(k), ". ", i) {
      if i + 2 <= k {
        assert Dots(k)[i..i + 2][1] == '.';
      }
    }
  }

  /** Five dots or more at the front unescape to a space first. */
  lemma UnescapeFive(m: nat, x: string)
    requires m >= 5
    ensures Unescape(Dots(m) + x) == " " + Unescape(Dots(m - 5) + x)
  {
    var s := Dots(m) + x;
    assert s[..5] == ".....";
    assert s[5..] == Dots(m - 5) + x;
  }

  /** Fewer than five dots before a character other than a dot are kept. */
  lemma {:induction false} UnescapeShortRun(j: nat, c: char, y: string)
    requires j <= 4 && c != '.'
    ensures Unescape(Dots(j) + [c] + y) == Dots(j) + [c] + Unescape(y)
    decreases j
  {
    var s := Dots(j) + [c] + y;
    if |s| < 5 {
      assert Unescape(y) == y;
    } else {
      assert s[j] == c;
      assert s[..5] != ".....";
      if j == 0 {
        assert s[1..] == y;
      } else {
        assert s[1..] == Dots(j - 1) + [c] + y;
        UnescapeShortRun(j - 1, c, y);
        assert Dots(j) == "." + Dots(j - 1);
      }
    }
  }

  /** What the round trip of `Dots(k) + p` promises: when it gives the text
      back, the text is `EscapeSafe`. */
  predicate SafeIfBack(k: nat, p: string) {
    Unescape(Dots(k) + Escape(p)) == Dots(k) + p ==> EscapeSafe(Dots(k) + p)
  }

  /** A space after fewer than five dots comes back only when no dot
      precedes it, and then only when the rest comes back. */
  lemma SpaceStep(k: nat, rest: string)
    requires k <= 4 && SafeIfBack(0, rest)
    ensures SafeIfBack(k, [' '] + rest)
  {
    EscapeCons(' ', rest);
    assert Dots(k) + Escape([' '] + rest) == Dots(k + 5) + Escape(rest);
    UnescapeFive(k + 5, Escape(rest));
    var u := " " + Unescape(Dots(k) + Escape(rest));
    if k > 0 {
      assert (Dots(k) + ([' '] + rest))[0] == '.';
    } else if u == Dots(k) + ([' '] + rest) {
      assert u[1..] == Unescape(Dots(0) + Escape(rest));
      assert (Dots(0) + ([' '] + rest))[1..] == Dots(0) + rest;
      assert Dots(0) + rest == rest;
      SafeSpace(rest);
      assert Dots(0) + ([' '] + rest) == [' '] + rest;
    }
  }

  /** A dot joins the run ahead of it; a fifth dot turns into a space. */
  lemma DotStep(k: nat, rest: string)
    requires k <= 4 && (k < 4 ==> SafeIfBack(k + 1, rest))
    ensures SafeIfBack(k, ['.'] + rest)
  {
    EscapeCons('.', rest);
    assert Dots(k) + Escape(['.'] + rest) == Dots(k + 1) + Escape(rest);
    assert Dots(k) + (['.'] + rest) == Dots(k + 1) + rest;
    if k == 4 {
      UnescapeFive(5, Escape(rest));
      assert (Dots(k) + (['.'] + rest))[0] == '.';
    }
  }

  /** A character other than a dot or a space after fewer than five dots
      comes back, so the round trip holds exactly when it holds for the
      rest. */
  lemma OtherStep(k: nat, c: char, rest: string)
    requires k <= 4 && c != ' ' && c != '.' && SafeIfBack(0, rest)
    ensures SafeIfBack(k, [c] + rest)
  {
    EscapeCons(c, rest);
    assert Dots(k) + Escape([c] + rest) == Dots(k) + [c] + Escape(rest);
    UnescapeShortRun(k, c, Escape(rest));
    assert Dots(k) + ([c] + rest) == Dots(k) + [c] + rest;
    var u := Dots(k) + [c] + Unescape(Escape(rest));
    if u == Dots(k) + [c] + rest {
      assert u[k + 1..] == Unescape(Escape(rest));
      assert (Dots(k) + [c] + rest)[k + 1..] == rest;
      assert Dots(0) + Escape(rest) == Escape(rest) && Dots(0) + rest == rest;
      SafeOther(k, c, rest);
    }
  }

  lemma SafeSpace(rest: string)
    requires EscapeSafe(rest)
    ensures EscapeSafe([' '] + rest)
  {
    var p := [' '] + rest;
    if Contains(p, ".....") {
      assert [] + [' '] + rest == p;
      ContainsAround([], ' ', rest, ".....");
    }
    forall i | 0 <= i <= |p| ensures !OccursAt(p, ". ", i) {
      if i == 0 && |p| >= 2 {
        assert p[0..2][0] == ' ';
      } else if 0 < i <= |p| - 2 {
        assert p[i..i + 2] == rest[i - 1..i + 1];
        assert !OccursAt(rest, ". ", i - 1);
      }
    }
  }

  lemma SafeOther(k: nat, c: char, rest: string)
    requires k <= 4 && c != ' ' && c != '.' && EscapeSafe(rest)
    ensures EscapeSafe(Dots(k) + [c] + rest)
  {
    DotsSafe(k);
    if Contains(Dots(k) + [c] + rest, ".....") { ContainsAround(Dots(k), c, rest, "....."); }
    if Contains(Dots(k) + [c] + rest, ". ") { ContainsAround(Dots(k), c, rest, ". "); }
  }

  /** The converse of `EscapeRoundTrip`, after a run of `k` dots: when the
      round trip gives the text back, it holds no five dots and no dot before
      a space. */
  lemma {:induction false} RoundTripSafeAfter(p: string, k: nat)
    requires k <= 4
    ensures SafeIfBack(k, p)
    decreases |p|
  {
    if |p| == 0 {
      assert Dots(k) + p == Dots(k);
      DotsSafe(k);
    } else {
      var c, rest := p[0], p[1..];
      assert [c] + rest == p;
      if c == ' ' {
        RoundTripSafeAfter(rest, 0);
        SpaceStep(k, rest);
      } else if c == '.' {
        if k < 4 {
          RoundTripSafeAfter(rest, k + 1);
        }
        DotStep(k, rest);
      } else {
        RoundTripSafeAfter(rest, 0);
        OtherStep(k, c, rest);
      }
    }
  }

  /** Unescaping an escaped path gives it back exactly when it holds no five
      dots and no dot before a space. */
  lemma EscapeRoundTripExact(path: string)
    ensures Unescape(Escape(path)) == path <==> EscapeSafe(path)
  {
    if EscapeSafe(path) {
      EscapeRoundTrip(path);
    } else {
      RoundTripSafeAfter(path, 0);
      assert Dots(0) + path == path && Dots(0) + Escape(path) == Escape(path);
    }
  }

  /** Python's `s.split(' ')`: the pieces between single spaces, empty pieces
      included; `acc` is the piece being collected. */
  function SplitFrom(s: string, acc: string): (r: seq<string>)
    ensures |r| >= 1
    decreases |s|
  {
    if s == [] then [acc]
    else if s[0] == ' ' then [acc] + SplitFrom(s[1..], "")
    else SplitFrom(s[1..], acc + [s[0]])
  }

  function Split(s: string): seq<string> {
    SplitFrom(s, "")
  }

  /** Python's `' '.join(tokens)`. */
  function Join(tokens: seq<string>): string {
    if |tokens| == 0 then ""
    else if |tokens| == 1 then tokens[0]
    else tokens[0] + " " + Join(tokens[1..])
  }

  predicate NoSpace(s: string) {
    forall i :: 0 <= i < |s| ==> s[i] != ' '
  }

  lemma {:induction false} SplitFromWord(a: string, b: string, acc: string)
    requires NoSpace(a)
    ensures SplitFrom(a + " " + b, acc) == [acc + a] + Split(b)
    decreases |a|
  {
    var s := a + " " + b;
    if a == [] {
      assert s[0] == ' ' && s[1..] == b;
      assert acc + a == acc;
    } else {
      assert s[0] == a[0] && s[1..] == a[1..] + " " + b;
      SplitFromWord(a[1..], b, acc + [a[0]]);
      assert acc + [a[0]] + a[1..] == acc + a;
    }
  }

  lemma {:induction false} SplitFromLast(a: string, acc: string)
    requires NoSpace(a)
    ensures SplitFrom(a, acc) == [acc + a]
    decreases |a|
  {
    if a == [] {
      assert acc + a == acc;
    } else {
      SplitFromLast(a[1..], acc + [a[0]]);
      assert acc + [a[0]] + a[1..] == acc + a;
    }
  }

  /** Splitting a joined line gives the tokens back when no token holds a space. */
  lemma {:induction false} SplitJoin(tokens: seq<string>)
    requires |tokens| >= 1
    requires forall k :: 0 <= k < |tokens| ==> NoSpace(tokens[k])
    ensures Split(Join(tokens)) == tokens
    decreases |tokens|
  {
    if |tokens| == 1 {
      SplitFromLast(tokens[0], "");
      assert "" + tokens[0] == tokens[0];
    } else {
      SplitJoin(tokens[1..]);
      SplitFromWord(tokens[0], Join(tokens[1..]), "");
      assert "" + tokens[0] == tokens[0];
      assert [tokens[0]] + tokens[1..] == tokens;
    }
  }

  /** Joining `head` with the rest of a line splits into `head`'s tokens
      followed by the rest's pieces. */
  lemma {:induction false} SplitJoinPrefix(head: seq<string>, tail: string)
    requires |head| >= 1
    requires forall k :: 0 <= k < |head| ==> NoSpace(head[k])
    ensures Split(Join(head) + " " + tail) == head + Split(tail)
    decreases |head|
  {
    if |head| == 1 {
      SplitFromWord(head[0], tail, "");
      assert "" + head[0] == head[0];
    } else {
      var rest := Join(head[1..]) + " " + tail;
      assert Join(head) + " " + tail == head[0] + " " + rest;
      SplitFromWord(head[0], rest, "");
      SplitJoinPrefix(head[1..], tail);
      assert "" + head[0] == head[0];
      assert [head[0]] + (head[1..] + Split(tail)) == head + Split(tail);
    }
  }

  /** An escaped path holds no space, so it stays one token of the command line. */
  lemma {:induction false} EscapeNoSpace(path: string)
    ensures NoSpace(Escape(path))
    decreases |path|
  {
    if |path| > 0 {
      assert [path[0]] + path[1..] == path;
      EscapeCons(path[0], path[1..]);
      EscapeNoSpace(path[1..]);
    }
  }

  predicate NoDot(s: string) {
    forall i :: 0 <= i < |s| ==> s[i] != '.'
  }

  /** A token without dots is left as it is by `Unescape`. */
  lemma UnescapeNoDot(s: string)
    requires NoDot(s)
    ensures Unescape(s) == s
  {
    forall i | 0 <= i <= |s| ensures !OccursAt(s, ".....", i) {
      if i <= |s| - 5 {
        assert s[i..i + 5][0] == s[i];
      }
    }
    ReplaceAbsent(s, ".....", " ");
  }

  // ---- decimal integers: str(int) and int(str) ----

  predicate IsDigit(c: char) {
    '0' <= c <= '9'
  }

  predicate AllDigits(s: string) {
    forall i :: 0 <= i < |s| ==> IsDigit(s[i])
  }

  function DigitChar(d: nat): (c: char)
    requires d < 10
    ensures IsDigit(c)
  {
    (48 + d) as char
  }

  /** Python's `str(n)` for a natural number: its shortest decimal form. */
  function NatToString(n: nat): (s: string)
    ensures |s| >= 1 && AllDigits(s)
    decreases n
  {
    if n < 10 then [DigitChar(n)] else NatToString(n / 10) + [DigitChar(n % 10)]
  }

  /** Python's `str(i)`. */
  function IntToString(i: int): string {
    if i < 0 then "-" + NatToString(-i) else NatToString(i)
  }

  /** The value of a string of decimal digits. */
  function DigitsValue(s: string): nat
    requires AllDigits(s)
  {
    if |s| == 0 then 0
    else DigitsValue(s[..|s| - 1]) * 10 + (s[|s| - 1] as int - 48)
  }

  /** Python's `int(s)` on an optional minus sign followed by decimal digits;
      anything else raises, here `None`. */
  function ParseInt(s: string): Option<int> {
    if |s| >= 2 && s[0] == '-' && AllDigits(s[1..]) then Some(0 - DigitsValue(s[1..]) as int)
    else if |s| >= 1 && AllDigits(s) then Some(DigitsValue(s))
    else None
  }

  lemma {:induction false} DigitsOfNatToString(n: nat)
    ensures DigitsValue(NatToString(n)) == n
    decreases n
  {
    var s := NatToString(n);
    if n >= 10 {
      DigitsOfNatToString(n / 10);
      assert s[..|s| - 1] == NatToString(n / 10);
    }
  }

  /** `int(str(i)) == i` for every integer. */
  lemma ParseIntToString(i: int)
    ensures ParseInt(IntToString(i)) == Some(i)
  {
    var s := IntToString(i);
    if i < 0 {
      DigitsOfNatToString(-i);
      assert s[1..] == NatToString(-i);
    } else {
      DigitsOfNatToString(i);
    }
  }

  /** `str(i)` never collides with the empty cell written for `-1`
      unless `i` is `-1`. */
  lemma IntToStringMinusOne(i: int)
    ensures IntToString(i) == "-1" <==> i == -1
  {
    if IntToString(i) == "-1" {
      ParseIntToString(i);
      assert ParseInt("-1") == Some(-1) by {
        assert "-1"[1..] == "1";
        assert "1"[..0] == "";
      }
    }
  }
}
