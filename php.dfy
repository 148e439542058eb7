/** The few PHP library functions the form backend relies on, over strings of single-byte characters. */
module Php {
  import opened Wrappers

  /** PHP's empty() applied to a string: both "" and "0" are empty. */
  predicate EmptyString(s: string)
  {
    s == "" || s == "0"
  }

  /** strrpos($s, $c) for a one-character needle: the index of the LAST occurrence,
      or None where PHP returns FALSE. */
  function LastIndexOf(s: string, c: char): (r: Option<nat>)
    ensures r.None? <==> c !in s
    ensures r.Some? ==> r.value < |s| && s[r.value] == c && c !in s[r.value + 1..]
  {
    if s == [] then None
    else if s[|s| - 1] == c then Some(|s| - 1)
    else
      assert s == s[..|s| - 1] + [s[|s| - 1]];
      LastIndexOf(s[..|s| - 1], c)
  }

  /** substr($s, $start) for a start offset that is never negative. Past the end PHP 8
      returns "" (older versions return FALSE, which reads as "" wherever it is used here). */
  function SubstrFrom(s: string, start: nat): (r: string)
    ensures |r| == if start <= |s| then |s| - start else 0
    ensures r == s[|s| - |r|..]
  {
    if start <= |s| then s[start..] else ""
  }

  /** str_replace($from, $to, $s) for single characters. */
  function ReplaceChar(s: string, from: char, to: char): string
  {
    seq(|s|, i requires 0 <= i < |s| => if s[i] == from then to else s[i])
  }

  /** After the replacement no `from` is left, and nothing but `from` was touched. */
  lemma ReplaceCharRemoves(s: string, from: char, to: char)
    requires from != to
    ensures var r := ReplaceChar(s, from, to);
      && |r| == |s|
      && from !in r
      && (forall c :: c in r ==> c == to || c in s)
  {
    var r := ReplaceChar(s, from, to);
    forall c | c in r ensures c == to || c in s {
      var i :| 0 <= i < |r| && r[i] == c;
      assert r[i] == s[i] || r[i] == to;
    }
  }

  /** Replacing by a character the string does not hold is undone by replacing back. */
  lemma ReplaceCharInverse(s: string, from: char, to: char)
    requires to !in s
    ensures ReplaceChar(ReplaceChar(s, from, to), to, from) == s
  {
    var r := ReplaceChar(s, from, to);
    var b := ReplaceChar(r, to, from);
    assert |b| == |s|;
    forall i | 0 <= i < |s| ensures b[i] == s[i] {
      assert s[i] != to;
    }
  }

  /** str_replace("\\\\", "", $s): deletes each pair of adjacent backslashes, scanning
      from the left without overlap. */
  function RemoveBackslashPairs(s: string): (r: string)
    ensures |r| <= |s| && (|s| - |r|) % 2 == 0
    ensures NonBackslashes(r) == NonBackslashes(s)
    ensures |s| > 0 && s[0] != '\\' ==> |r| > 0 && r[0] == s[0]
    ensures forall i :: 0 <= i < |r| - 1 ==> !(r[i] == '\\' && r[i + 1] == '\\')
    decreases |s|
  {
    if |s| >= 2 && s[0] == '\\' && s[1] == '\\' then
      NonBackslashesDropsPair(s);
      RemoveBackslashPairs(s[2..])
    else if s == [] then []
    else
      NonBackslashesCons(s[0], RemoveBackslashPairs(s[1..]));
      [s[0]] + RemoveBackslashPairs(s[1..])
  }

  /** The characters of a string other than backslashes, in order. */
  function NonBackslashes(s: string): string
    decreases |s|
  {
    if s == [] then []
    else (if s[0] == '\\' then [] else [s[0]]) + NonBackslashes(s[1..])
  }

  lemma NonBackslashesCons(c: char, s: string)
    ensures NonBackslashes([c] + s) == (if c == '\\' then [] else [c]) + NonBackslashes(s)
  {
    assert ([c] + s)[1..] == s;
  }

  lemma NonBackslashesDropsPair(s: string)
    requires |s| >= 2 && s[0] == '\\' && s[1] == '\\'
    ensures NonBackslashes(s) == NonBackslashes(s[2..])
  {
    assert s[1..][1..] == s[2..];
  }

  /** A run of k backslashes. */
  function Backslashes(k: nat): string
    decreases k
  {
    if k == 0 then [] else ['\\'] + Backslashes(k - 1)
  }

  /** str_replace("\\\\", "", ...) on a run of k backslashes leaves k % 2 of them. */
  lemma {:induction false} RemoveBackslashPairsRun(k: nat)
    ensures RemoveBackslashPairs(Backslashes(k)) == Backslashes(k % 2)
    decreases k
  {
    if k >= 2 {
      var b := Backslashes(k);
      assert b == ['\\'] + (['\\'] + Backslashes(k - 2));
      assert b[0] == '\\' && b[1] == '\\' && b[2..] == Backslashes(k - 2);
      RemoveBackslashPairsRun(k - 2);
      assert (k - 2) % 2 == k % 2;
    } else if k == 1 {
      assert Backslashes(1) == ['\\'] + [];
      assert Backslashes(1)[1..] == [];
    }
  }

  /** A character other than a backslash separates the runs: pair removal works on the
      two sides of it independently and keeps it in place. With RemoveBackslashPairsRun
      this fixes the result on every string, which is a sequence of backslash runs
      separated by other characters. */
  lemma {:induction false} RemoveBackslashPairsSplit(u: string, c: char, v: string)
    requires c != '\\'
    ensures RemoveBackslashPairs(u + [c] + v) == RemoveBackslashPairs(u) + [c] + RemoveBackslashPairs(v)
    decreases |u|
  {
    var s := u + [c] + v;
    if u == [] {
      assert s == [c] + v && s[1..] == v;
    } else if |u| >= 2 && u[0] == '\\' && u[1] == '\\' {
      assert s[0] == '\\' && s[1] == '\\';
      assert s[2..] == u[2..] + [c] + v;
      RemoveBackslashPairsSplit(u[2..], c, v);
    } else {
      assert s[0] == u[0];
      assert |u| == 1 ==> s[1] == c;
      assert |u| >= 2 ==> s[1] == u[1];
      assert s[1..] == u[1..] + [c] + v;
      RemoveBackslashPairsSplit(u[1..], c, v);
    }
  }

  /** The characters ucwords() treats as word separators by default: " \t\r\n\f\v". */
  predicate IsWordDelimiter(c: char)
  {
    c == ' ' || c == '\t' || c == '\r' || c == '\n' || c == '\U{000C}' || c == '\U{000B}'
  }

  /** ASCII toupper(). */
  function ToUpper(c: char): char
  {
    if 'a' <= c <= 'z' then (c as int - 32) as char else c
  }

  /** toupper() leaves no lower-case letter, is idempotent, and maps distinct letters
      to distinct capitals. */
  lemma ToUpperCapitalises(c: char, d: char)
    ensures !('a' <= ToUpper(c) <= 'z')
    ensures ToUpper(ToUpper(c)) == ToUpper(c)
    ensures 'a' <= c <= 'z' && 'a' <= d <= 'z' && c != d ==> ToUpper(c) != ToUpper(d)
  {
  }

  /** The scan inside ucwords(): a character is upper-cased when the one before it
      (prev for the first) is a word delimiter; nothing is lower-cased. */
  function UcwordsAfter(prev: char, s: string): (r: string)
    ensures |r| == |s|
    ensures forall i :: 0 <= i < |s| ==>
      r[i] == if IsWordDelimiter(if i == 0 then prev else s[i - 1]) then ToUpper(s[i]) else s[i]
    decreases |s|
  {
    if s == [] then []
    else [if IsWordDelimiter(prev) then ToUpper(s[0]) else s[0]] + UcwordsAfter(s[0], s[1..])
  }

  /** ucwords($s): upper-cases the first character and every character after a delimiter. */
  function Ucwords(s: string): (r: string)
    ensures |r| == |s|
    ensures forall i :: 0 <= i < |s| ==>
      r[i] == if i == 0 || IsWordDelimiter(s[i - 1]) then ToUpper(s[i]) else s[i]
  {
    UcwordsAfter(' ', s)
  }

  /** stripslashes($s): a backslash is dropped and the character after it kept, except
      that "\0" becomes the NUL character; a trailing lone backslash disappears. */
  function StripSlashes(s: string): string
    decreases |s|
  {
    if s == [] then []
    else if s[0] != '\\' then [s[0]] + StripSlashes(s[1..])
    else if |s| == 1 then []
    else [if s[1] == '0' then '\0' else s[1]] + StripSlashes(s[2..])
  }

  /** addslashes($s), the escaping that stripslashes() undoes (PHP's magic quotes applied
      it to request data): a backslash goes before ', ", \ and NUL is written "\0". */
  function AddSlashes(s: string): string
    decreases |s|
  {
    if s == [] then []
    else if s[0] == '\0' then "\\0" + AddSlashes(s[1..])
    else if s[0] == '\'' || s[0] == '"' || s[0] == '\\' then ['\\', s[0]] + AddSlashes(s[1..])
    else [s[0]] + AddSlashes(s[1..])
  }

  /** stripslashes() inverts addslashes(). */
  lemma {:induction false} StripSlashesAddSlashes(s: string)
    ensures StripSlashes(AddSlashes(s)) == s
    decreases |s|
  {
    if s != [] {
      StripSlashesAddSlashes(s[1..]);
      var t := AddSlashes(s[1..]);
      if s[0] == '\0' {
        assert AddSlashes(s) == ['\\', '0'] + t;
        assert (['\\', '0'] + t)[2..] == t;
      } else if s[0] == '\'' || s[0] == '"' || s[0] == '\\' {
        assert (['\\', s[0]] + t)[2..] == t;
      } else {
        assert ([s[0]] + t)[1..] == t;
      }
    }
  }
}
