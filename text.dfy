/** The string operations the query handling relies on: Python's strip, split and lower. */
module Text {

  /** The characters Python's str.isspace accepts, which str.strip() removes from both ends. */
  predicate IsSpace(c: char)
  {
    || ('\t' <= c <= '\r')
    || (0x1c <= c as int <= 0x20)
    || c as int == 0x85 || c as int == 0xa0 || c as int == 0x1680
    || (0x2000 <= c as int <= 0x200a)
    || c as int == 0x2028 || c as int == 0x2029 || c as int == 0x202f
    || c as int == 0x205f || c as int == 0x3000
  }

  /** The number of whitespace characters s starts with. */
  function LeadingSpace(s: string): (n: nat)
    ensures n <= |s|
    ensures forall k :: 0 <= k < n ==> IsSpace(s[k])
    ensures n == |s| || !IsSpace(s[n])
    decreases |s|
  {
    if s != [] && IsSpace(s[0]) then 1 + LeadingSpace(s[1..]) else 0
  }

  /** s without its trailing whitespace. */
  function TrimEnd(s: string): (r: string)
    ensures |r| <= |s| && r == s[..|r|]
    ensures forall k :: |r| <= k < |s| ==> IsSpace(s[k])
    ensures r == [] || !IsSpace(r[|r| - 1])
    decreases |s|
  {
    if s != [] && IsSpace(s[|s| - 1]) then
      var r := TrimEnd(s[..|s| - 1]);
      assert s[..|s| - 1][..|r|] == s[..|r|];
      r
    else s
  }

  /**
   * Python's str.strip(): the slice of s left after removing its leading and trailing
   * whitespace. It is empty exactly when s is all whitespace.
   */
  function Strip(s: string): (r: string)
    ensures LeadingSpace(s) + |r| <= |s|
    ensures r == s[LeadingSpace(s)..LeadingSpace(s) + |r|]
    ensures forall k :: LeadingSpace(s) + |r| <= k < |s| ==> IsSpace(s[k])
    ensures r == [] || (!IsSpace(r[0]) && !IsSpace(r[|r| - 1]))
    ensures forall c :: c in r ==> c in s
  {
    var i := LeadingSpace(s);
    var t := s[i..];
    var r := TrimEnd(t);
    assert r == s[i..i + |r|];
    assert r != [] ==> r[0] == s[i];
    assert forall k :: i + |r| <= k < |s| ==> s[k] == t[k - i];
    r
  }

  /** Stripping leaves nothing exactly when s is all whitespace. */
  lemma StripBlank(s: string)
    ensures Strip(s) == [] <==> forall c :: c in s ==> IsSpace(c)
  {
    var i := LeadingSpace(s);
    if Strip(s) == [] {
      forall c | c in s
        ensures IsSpace(c)
      {
        var k :| 0 <= k < |s| && s[k] == c;
      }
    } else if i < |s| {
      assert s[i] in s;
    }
  }

  /** The pieces of a separator-split string glued back with the separator. */
  function Join(parts: seq<string>, sep: char): (r: string)
    requires |parts| >= 1
    decreases |parts|
  {
    if |parts| == 1 then parts[0] else parts[0] + [sep] + Join(parts[1..], sep)
  }

  /**
   * Python's str.split(sep): the maximal separator-free pieces between separators,
   * at least one piece, empty pieces included. Joining them back gives s.
   */
  function Split(s: string, sep: char): (r: seq<string>)
    ensures |r| >= 1
    ensures forall p :: p in r ==> sep !in p
    ensures Join(r, sep) == s
    decreases |s|
  {
    if s == [] then [[]]
    else
      var rest := Split(s[1..], sep);
      if s[0] == sep then [[]] + rest
      else
        var r := [[s[0]] + rest[0]] + rest[1..];
        assert s == [s[0]] + s[1..];
        assert |rest| > 1 ==> Join(rest, sep) == rest[0] + [sep] + Join(rest[1..], sep);
        assert r[1..] == rest[1..];
        r
  }

  /** Splitting a string on a separator that occurs in no piece recovers the pieces. */
  lemma {:induction false} SplitJoin(parts: seq<string>, sep: char)
    requires |parts| >= 1
    requires forall p :: p in parts ==> sep !in p
    ensures Split(Join(parts, sep), sep) == parts
    decreases |parts|
  {
    if |parts| == 1 {
      SplitNoSeparator(parts[0], [], sep);
    } else {
      SplitJoin(parts[1..], sep);
      SplitNoSeparator(parts[0], Join(parts[1..], sep), sep);
      assert parts == [parts[0]] + parts[1..];
    }
  }

  /** Splitting a piece followed by (a separator and) a tail yields the piece, then the tail's pieces. */
  lemma {:induction false} SplitNoSeparator(a: string, b: string, sep: char)
    requires sep !in a
    ensures b == [] ==> Split(a, sep) == [a]
    ensures Split(a + [sep] + b, sep) == [a] + Split(b, sep)
    decreases |a|
  {
    if a == [] {
      assert a + [sep] + b == [sep] + b;
      assert ([sep] + b)[1..] == b;
    } else {
      SplitNoSeparator(a[1..], b, sep);
      assert (a + [sep] + b)[1..] == a[1..] + [sep] + b;
      assert [a[0]] + a[1..] == a;
    }
  }

  /** ASCII lower-casing of one character. */
  function LowerChar(c: char): char
  {
    if 'A' <= c <= 'Z' then (c as int + 32) as char else c
  }

  /**
   * str.lower() restricted to ASCII: the same length, every letter A-Z replaced by its
   * lower-case form and every other character kept, so no upper-case ASCII letter remains.
   */
  function Lower(s: string): (r: string)
    ensures |r| == |s|
    ensures forall i :: 0 <= i < |s| ==> r[i] == LowerChar(s[i])
    ensures forall i :: 0 <= i < |r| ==> !('A' <= r[i] <= 'Z')
    decreases |s|
  {
    if s == [] then [] else [LowerChar(s[0])] + Lower(s[1..])
  }
}
