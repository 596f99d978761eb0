/**
 * `sanitize_message`: `re.sub(r"<.*?>", "", message)`.  Without DOTALL the
 * `.` does not match a newline, and `.*?` is lazy, so a tag starting at a
 * `<` ends at the first `>` after it, provided no newline comes first.
 */
module Sanitize {

  import opened Wrappers
  import Text

  /** `c` ends the lazy `.*?` scan: either the closing `>` or a newline. */
  predicate IsStop(c: char)
  {
    c == '>' || c == '\n'
  }

  /** The first position at or after `from` holding `>` or a newline, or `|s|`. */
  function NextStop(s: string, from: nat): (k: nat)
    requires from <= |s|
    ensures from <= k <= |s|
    ensures k < |s| ==> IsStop(s[k])
    ensures forall i :: from <= i < k ==> !IsStop(s[i])
    decreases |s| - from
  {
    if from == |s| || IsStop(s[from]) then from else NextStop(s, from + 1)
  }

  /** The length of the match of `<.*?>` at the start of `s`, if there is one. */
  function TagLength(s: string): (r: Option<nat>)
    ensures r.Some? ==> 2 <= r.value <= |s| && s[0] == '<' && s[r.value - 1] == '>'
    ensures r.Some? ==> forall i :: 1 <= i < r.value - 1 ==> !IsStop(s[i])
  {
    if s == [] || s[0] != '<' then None
    else
      var k := NextStop(s, 1);
      if k < |s| && s[k] == '>' then Some(k + 1) else None
  }

  /**
   * Left-to-right substitution: a match is deleted and scanning resumes
   * after it; where no match starts, the character is kept.
   */
  function SanitizeMessage(s: string): (r: string)
    ensures |r| <= |s|
    decreases |s|
  {
    if s == [] then []
    else
      match TagLength(s)
      case Some(n) => SanitizeMessage(s[n..])
      case None => [s[0]] + SanitizeMessage(s[1..])
  }

  /**
   * No `<` in `s` is followed by a `>` on the same line: nothing
   * `<.*?>` could match.
   */
  predicate NoTag(s: string)
  {
    forall i, j :: 0 <= i < j < |s| && s[i] == '<' && s[j] == '>' ==> exists k :: i < k < j && s[k] == '\n'
  }

  /** Only deletions happen: the output is a subsequence of the input. */
  lemma {:induction false} SanitizeIsSubsequence(s: string)
    ensures Text.IsSubsequence(SanitizeMessage(s), s)
    decreases |s|
  {
    if s != [] {
      match TagLength(s)
      case Some(n) =>
        SanitizeIsSubsequence(s[n..]);
        Text.SubsequenceDropPrefix(SanitizeMessage(s[n..]), s, n);
      case None =>
        SanitizeIsSubsequence(s[1..]);
    }
  }

  /** A string without `>` holds no tag, so it is returned as it is. */
  lemma {:induction false} NoCloseUnchanged(s: string)
    requires '>' !in s
    ensures SanitizeMessage(s) == s
    decreases |s|
  {
    if s != [] {
      assert TagLength(s).None?;
      NoCloseUnchanged(s[1..]);
    }
  }

  /**
   * A line start `a` without `>` is kept, and so is the newline that ends
   * it: any tag opened in `a` runs into that newline first.
   */
  lemma {:induction false} LineKept(a: string, b: string)
    requires '>' !in a && '\n' !in a
    ensures SanitizeMessage(a + ['\n'] + b) == a + ['\n'] + SanitizeMessage(b)
    decreases |a|
  {
    var s := a + ['\n'] + b;
    if a == [] {
      assert s[1..] == b;
      assert TagLength(s).None?;
    } else {
      assert s[1..] == a[1..] + ['\n'] + b;
      LineStartOpensNoTag(a, b);
      LineKept(a[1..], b);
    }
  }

  /** A `<` in a line start without `>` finds the newline before any `>`. */
  lemma LineStartOpensNoTag(a: string, b: string)
    requires a != [] && '>' !in a && '\n' !in a
    ensures TagLength(a + ['\n'] + b).None?
  {
    var s := a + ['\n'] + b;
    if s[0] == '<' {
      assert forall i :: 1 <= i < |a| ==> s[i] == a[i];
      NextStopAt(s, 1, |a|);
    }
  }

  /**
   * Text without `<` opens no tag, so it is kept whole in front of
   * whatever follows, even when it holds `>`.
   */
  lemma {:induction false} KeptBeforeOpen(a: string, b: string)
    requires '<' !in a
    ensures SanitizeMessage(a + b) == a + SanitizeMessage(b)
    decreases |a|
  {
    if a != [] {
      var s := a + b;
      assert s[0] == a[0] && s[1..] == a[1..] + b;
      assert TagLength(s).None?;
      KeptBeforeOpen(a[1..], b);
      assert a == [a[0]] + a[1..];
    } else {
      assert a + b == b;
    }
  }

  /**
   * A `<` with no `>` after it on its line opens no tag: it is kept, and
   * substitution goes on after it.
   */
  lemma OpenKept(s: string)
    requires s != [] && s[0] == '<'
    requires forall k :: 1 <= k < |s| && s[k] == '>' ==> exists m :: 1 <= m < k && s[m] == '\n'
    ensures SanitizeMessage(s) == ['<'] + SanitizeMessage(s[1..])
  {
  }

  /** After substitution no tag is left. */
  lemma {:induction false} SanitizeLeavesNoTag(s: string)
    ensures NoTag(SanitizeMessage(s))
    decreases |s|
  {
    if s != [] {
      match TagLength(s)
      case Some(n) =>
        SanitizeLeavesNoTag(s[n..]);
      case None =>
        SanitizeLeavesNoTag(s[1..]);
        if s[0] == '<' {
          UnclosedOpenKept(s);
        }
        ConsNoTag(s[0], SanitizeMessage(s[1..]));
    }
  }

  /**
   * A `<` that opens no tag has a newline before every `>` of the
   * sanitised rest: either there is no `>` at all, or the line ends first.
   */
  lemma UnclosedOpenKept(s: string)
    requires s != [] && s[0] == '<' && TagLength(s).None?
    ensures forall j :: 0 <= j < |SanitizeMessage(s[1..])| && SanitizeMessage(s[1..])[j] == '>' ==>
              exists k :: 0 <= k < j && SanitizeMessage(s[1..])[k] == '\n'
  {
    var rest := SanitizeMessage(s[1..]);
    var k := NextStop(s, 1);
    if k == |s| {
      assert '>' !in s[1..];
      NoCloseUnchanged(s[1..]);
    } else {
      assert s[k] == '\n';
      var a, b := s[1..k], s[k + 1..];
      assert s[1..] == a + ['\n'] + b;
      LineKept(a, b);
      assert rest[|a|] == '\n';
      assert forall j :: 0 <= j < |a| ==> rest[j] != '>';
    }
  }

  /**
   * Putting `c` in front of a string without tags leaves no tag, unless
   * `c` is `<` and a `>` follows on its line.
   */
  lemma ConsNoTag(c: char, rest: string)
    requires NoTag(rest)
    requires c == '<' ==> forall j :: 0 <= j < |rest| && rest[j] == '>' ==> exists k :: 0 <= k < j && rest[k] == '\n'
    ensures NoTag([c] + rest)
  {
    var r := [c] + rest;
    forall i, j | 0 <= i < j < |r| && r[i] == '<' && r[j] == '>'
      ensures exists k :: i < k < j && r[k] == '\n'
    {
      if i == 0 {
        var k :| 0 <= k < j - 1 && rest[k] == '\n';
        assert r[k + 1] == '\n';
      } else {
        assert rest[i - 1] == '<' && rest[j - 1] == '>';
        var k :| i - 1 < k < j - 1 && rest[k] == '\n';
        assert r[k + 1] == '\n';
      }
    }
  }

  /** The scan from `from` stops at the first stop character after it. */
  lemma {:induction false} NextStopAt(s: string, from: nat, k: nat)
    requires from <= k < |s| && IsStop(s[k])
    requires forall i :: from <= i < k ==> !IsStop(s[i])
    ensures NextStop(s, from) == k
    decreases k - from
  {
    if from < k {
      NextStopAt(s, from + 1, k);
    }
  }

  /**
   * A tag `<x>` whose body holds neither `>` nor a newline is deleted, the
   * text `a` before it (which opens no tag) is kept, and substitution goes
   * on after it.
   */
  lemma {:induction false} TagRemoved(a: string, x: string, b: string)
    requires '<' !in a && '>' !in x && '\n' !in x
    ensures SanitizeMessage(a + ['<'] + x + ['>'] + b) == a + SanitizeMessage(b)
    decreases |a|
  {
    var s := a + ['<'] + x + ['>'] + b;
    if a == [] {
      assert forall i :: 1 <= i <= |x| ==> s[i] == x[i - 1];
      NextStopAt(s, 1, |x| + 1);
      assert TagLength(s) == Some(|x| + 2);
      assert s[|x| + 2..] == b;
    } else {
      assert s[0] == a[0] && s[0] != '<';
      assert s[1..] == a[1..] + ['<'] + x + ['>'] + b;
      TagRemoved(a[1..], x, b);
      assert a == [a[0]] + a[1..];
    }
  }

  /** A string without tags is its own sanitised form. */
  lemma {:induction false} NoTagUnchanged(s: string)
    requires NoTag(s)
    ensures SanitizeMessage(s) == s
    decreases |s|
  {
    if s != [] {
      if s[0] == '<' {
        var k := NextStop(s, 1);
        if k < |s| && s[k] == '>' {
          assert false;
        }
      }
      assert TagLength(s).None?;
      assert NoTag(s[1..]) by {
        forall i, j | 0 <= i < j < |s| - 1 && s[1..][i] == '<' && s[1..][j] == '>'
          ensures exists k :: i < k < j && s[1..][k] == '\n'
        {
          var k :| i + 1 < k < j + 1 && s[k] == '\n';
          assert s[1..][k - 1] == '\n';
        }
      }
      NoTagUnchanged(s[1..]);
    }
  }

  /** A message without `<` is returned unchanged. */
  lemma NoOpenUnchanged(s: string)
    requires '<' !in s
    ensures SanitizeMessage(s) == s
  {
    NoTagUnchanged(s);
  }

  /** Sanitising twice is sanitising once. */
  lemma SanitizeIdempotent(s: string)
    ensures SanitizeMessage(SanitizeMessage(s)) == SanitizeMessage(s)
  {
    SanitizeLeavesNoTag(s);
    NoTagUnchanged(SanitizeMessage(s));
  }
}
