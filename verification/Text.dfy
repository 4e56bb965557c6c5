/** The JavaScript string functions that the source leans on. */
module Text {

  /** What `String.prototype.trim` removes. */
  predicate IsSpace(c: char) {
    || '\t' <= c <= '\r' || c == ' ' || c == '\U{00A0}' || c == '\U{1680}'
    || '\U{2000}' <= c <= '\U{200A}' || c == '\U{2028}' || c == '\U{2029}' || c == '\U{202F}'
    || c == '\U{205F}' || c == '\U{3000}' || c == '\U{FEFF}'
  }

  function TrimStart(s: string): string {
    if s != [] && IsSpace(s[0]) then TrimStart(s[1..]) else s
  }

  function TrimEnd(s: string): string {
    if s != [] && IsSpace(s[|s| - 1]) then TrimEnd(s[..|s| - 1]) else s
  }

  function Trim(s: string): string {
    TrimEnd(TrimStart(s))
  }

  predicate IsTrimmed(s: string) {
    s != [] ==> !IsSpace(s[0]) && !IsSpace(s[|s| - 1])
  }

  lemma {:induction false} TrimStartTrims(s: string)
    ensures var t := TrimStart(s); (t != [] ==> !IsSpace(t[0])) && forall c <- t :: c in s
    ensures s != [] && !IsSpace(s[0]) ==> TrimStart(s) == s
  {
    if s != [] && IsSpace(s[0]) {
      TrimStartTrims(s[1..]);
    }
  }

  lemma {:induction false} TrimEndTrims(s: string)
    ensures var t := TrimEnd(s); t <= s && (t != [] ==> !IsSpace(t[|t| - 1]))
    ensures s != [] && !IsSpace(s[|s| - 1]) ==> TrimEnd(s) == s
  {
    if s != [] && IsSpace(s[|s| - 1]) {
      TrimEndTrims(s[..|s| - 1]);
    }
  }

  lemma TrimTrims(s: string)
    ensures IsTrimmed(Trim(s)) && (IsTrimmed(s) <==> Trim(s) == s) && forall c <- Trim(s) :: c in s
  {
    TrimStartTrims(s);
    TrimEndTrims(TrimStart(s));
    TrimEndTrims(s);
  }

  /** Lower case, for the ASCII letters that column and host names are written in. */
  function Lower(s: string): (r: string)
    ensures |r| == |s|
  {
    seq(|s|, i requires 0 <= i < |s| =>
      if 'A' <= s[i] <= 'Z' then (s[i] as int + 32) as char else s[i])
  }

  lemma LowerExactly(s: string)
    ensures forall i :: 0 <= i < |s| ==>
                          if 'A' <= s[i] <= 'Z' then Lower(s)[i] as int - 'a' as int == s[i] as int - 'A' as int
                          else Lower(s)[i] == s[i]
  {
  }

  /** What trimming takes away is white space. */
  lemma TrimTakesSpace(s: string) returns (before: string, after: string)
    ensures s == before + Trim(s) + after
    ensures (forall c <- before :: IsSpace(c)) && (forall c <- after :: IsSpace(c))
  {
    before := TrimStartTakesSpace(s);
    after := TrimEndTakesSpace(TrimStart(s));
    assert s == before + (Trim(s) + after);
  }

  lemma {:induction false} TrimStartTakesSpace(s: string) returns (before: string)
    ensures s == before + TrimStart(s) && forall c <- before :: IsSpace(c)
  {
    before := [];
    if s != [] && IsSpace(s[0]) {
      before := TrimStartTakesSpace(s[1..]);
      before := [s[0]] + before;
    }
  }

  lemma {:induction false} TrimEndTakesSpace(s: string) returns (after: string)
    ensures s == TrimEnd(s) + after && forall c <- after :: IsSpace(c)
  {
    after := [];
    if s != [] && IsSpace(s[|s| - 1]) {
      after := TrimEndTakesSpace(s[..|s| - 1]);
      after := after + [s[|s| - 1]];
      assert s == s[..|s| - 1] + [s[|s| - 1]];
    }
  }

  predicate EndsWith(s: string, suffix: string) {
    |suffix| <= |s| && s[|s| - |suffix|..] == suffix
  }

  /** `String.prototype.split` on single characters. */
  function Split(s: string, sep: char -> bool): (r: seq<string>)
    ensures r != []
  {
    if s == [] then [""]
    else
      var rest := Split(s[1..], sep);
      if sep(s[0]) then [""] + rest else [[s[0]] + rest[0]] + rest[1..]
  }

  lemma {:induction false} SplitFirst(a: string, c: char, rest: string, sep: char -> bool)
    requires sep(c) && forall i :: 0 <= i < |a| ==> !sep(a[i])
    ensures Split(a + [c] + rest, sep) == [a] + Split(rest, sep)
  {
    var s := a + [c] + rest;
    if a == [] {
      assert s[1..] == rest;
    } else {
      assert s[0] == a[0] && s[1..] == a[1..] + [c] + rest;
      SplitFirst(a[1..], c, rest, sep);
      assert [a[0]] + a[1..] == a;
    }
  }

  lemma {:induction false} SplitWhole(a: string, sep: char -> bool)
    requires forall i :: 0 <= i < |a| ==> !sep(a[i])
    ensures Split(a, sep) == [a]
  {
    if a == [] {
    } else {
      SplitWhole(a[1..], sep);
      assert [a[0]] + a[1..] == a;
    }
  }

  /** The first part has no separator in it, and splitting goes on behind it. */
  lemma {:induction false} SplitHead(s: string, sep: char -> bool)
    ensures var r := Split(s, sep);
            (forall i :: 0 <= i < |r[0]| ==> !sep(r[0][i]))
            && (|r| == 1 ==> s == r[0])
            && (|r| > 1 ==> |r[0]| < |s| && sep(s[|r[0]|]) && s[..|r[0]|] == r[0]
                            && r[1..] == Split(s[|r[0]| + 1..], sep))
  {
    if s == [] {
    } else {
      SplitHead(s[1..], sep);
      var r, t := Split(s, sep), Split(s[1..], sep);
      if !sep(s[0]) {
        assert r[0] == [s[0]] + t[0] && r[1..] == t[1..];
        if |t| > 1 {
          assert s[|r[0]| + 1..] == s[1..][|t[0]| + 1..];
        }
      }
    }
  }

  /** Splitting at every LF or CRLF. */
  function Lines(s: string): (r: seq<string>)
    ensures r != []
  {
    if s == [] then [""]
    else if s[0] == '\n' then [""] + Lines(s[1..])
    else if s[0] == '\r' && |s| > 1 && s[1] == '\n' then [""] + Lines(s[2..])
    else
      var r := Lines(s[1..]);
      [[s[0]] + r[0]] + r[1..]
  }
}
