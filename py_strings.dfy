/**
 The Python string operations the chatbot's citation step and chat loop rely on:
 substring containment (`sub in s`), `str.rfind`, POSIX `os.path.basename`,
 `str.lower` and `str.strip`.
 */
module PyStrings {

  /** `sub` occurs in `s` starting at index `i`. */
  predicate OccursAt(s: string, sub: string, i: int) {
    0 <= i && i + |sub| <= |s| && s[i..i + |sub|] == sub
  }

  lemma OccursAtShift(s: string, sub: string, i: int)
    requires |s| > 0 && i >= 0
    ensures OccursAt(s[1..], sub, i) <==> OccursAt(s, sub, i + 1)
  {
    if 0 <= i && i + |sub| <= |s| - 1 {
      assert s[1..][i..i + |sub|] == s[i + 1..i + 1 + |sub|];
    }
  }

  /** Python's `sub in s` on strings: `sub` is a contiguous part of `s`. */
  function Contains(s: string, sub: string): (r: bool)
    ensures r <==> exists i :: OccursAt(s, sub, i)
    decreases |s|
  {
    if |sub| > |s| then false
    else if s[..|sub|] == sub then assert OccursAt(s, sub, 0); true
    else
      var rest := Contains(s[1..], sub);
      assert rest ==> exists i :: OccursAt(s, sub, i) by {
        if rest {
          var i :| OccursAt(s[1..], sub, i);
          OccursAtShift(s, sub, i);
        }
      }
      assert (exists i :: OccursAt(s, sub, i)) ==> rest by {
        if exists i :: OccursAt(s, sub, i) {
          var i :| OccursAt(s, sub, i);
          assert i != 0;
          OccursAtShift(s, sub, i - 1);
        }
      }
      rest
  }

  /** Python's `s.rfind(c)` for one character: the last index holding `c`, or -1 when there is none. */
  function RFind(s: string, c: char): (r: int)
    ensures -1 <= r < |s|
    ensures r >= 0 ==> s[r] == c
    ensures forall k :: r < k < |s| ==> s[k] != c
  {
    if |s| == 0 then -1
    else if s[|s| - 1] == c then |s| - 1
    else RFind(s[..|s| - 1], c)
  }

  /**
   POSIX `os.path.basename`: the part of `p` after its last '/', or all of `p`
   when it holds no '/'. Its contract pins it down as the longest suffix of `p`
   free of '/'.
   */
  function Basename(p: string): (r: string)
    ensures '/' !in r
    ensures |r| <= |p| && forall k :: 0 <= k < |r| ==> r[k] == p[|p| - |r| + k]
    ensures |r| < |p| ==> p[|p| - |r| - 1] == '/'
  {
    if |p| == 0 || p[|p| - 1] == '/' then "" else Basename(p[..|p| - 1]) + [p[|p| - 1]]
  }

  /** Basename is what `posixpath.basename` computes: `p[p.rfind('/') + 1:]`. */
  lemma BasenameIsAfterLastSlash(p: string)
    ensures Basename(p) == p[RFind(p, '/') + 1..]
  {
    var i := RFind(p, '/') + 1;
    assert forall k :: 0 <= k < |p| - i ==> p[i..][k] == p[i + k];
    BasenameUnique(p, p[i..]);
  }

  /** The three properties in Basename's contract determine it. */
  lemma {:induction false} BasenameUnique(p: string, r: string)
    requires '/' !in r
    requires |r| <= |p| && forall k :: 0 <= k < |r| ==> r[k] == p[|p| - |r| + k]
    requires |r| < |p| ==> p[|p| - |r| - 1] == '/'
    ensures Basename(p) == r
  {
    if |p| > 0 && p[|p| - 1] != '/' {
      assert |r| > 0;
      assert r[|r| - 1] == p[|p| - 1];
      var p', r' := p[..|p| - 1], r[..|r| - 1];
      assert forall k :: 0 <= k < |r'| ==> r'[k] == p'[|p'| - |r'| + k];
      BasenameUnique(p', r');
      assert r == r' + [p[|p| - 1]];
    } else if |p| > 0 {
      assert p == p[..|p| - |r|] + r;
    }
  }

  /** A path without '/' is its own basename. */
  lemma BasenameOfPlainName(name: string)
    requires '/' !in name
    ensures Basename(name) == name
  {
    BasenameUnique(name, name);
  }

  /** The basename of `dir/name` is `name`, whatever the directory part is. */
  lemma BasenameOfJoin(dir: string, name: string)
    requires '/' !in name
    ensures Basename(dir + "/" + name) == name
  {
    var p := dir + "/" + name;
    assert forall k :: 0 <= k < |name| ==> name[k] == p[|p| - |name| + k];
    assert p[|p| - |name| - 1] == '/';
    BasenameUnique(p, name);
  }

  /** Taking the basename twice changes nothing. */
  lemma BasenameIdempotent(p: string)
    ensures Basename(Basename(p)) == Basename(p)
  {
    BasenameOfPlainName(Basename(p));
  }

  /** `str.lower` restricted to ASCII: 'A'..'Z' become 'a'..'z', every other character stays. */
  function LowerChar(c: char): char {
    if 'A' <= c <= 'Z' then (c as int - 'A' as int + 'a' as int) as char else c
  }

  function Lower(s: string): string {
    seq(|s|, i requires 0 <= i < |s| => LowerChar(s[i]))
  }

  /** Python's `str.isspace` for one character: the code points `str.strip()` removes. */
  predicate IsSpace(c: char) {
    var n := c as int;
    (0x09 <= n <= 0x0D) || (0x1C <= n <= 0x20) || n == 0x85 || n == 0xA0 || n == 0x1680
    || (0x2000 <= n <= 0x200A) || n == 0x2028 || n == 0x2029 || n == 0x202F || n == 0x205F
    || n == 0x3000
  }

  /** `s` is `s[..i]`, then `s[i..j]`, then `s[j..]`, and the outer two parts are all whitespace. */
  predicate IsPadding(s: string, i: int, j: int) {
    && 0 <= i <= j <= |s|
    && (forall k :: 0 <= k < i ==> IsSpace(s[k]))
    && (forall k :: j <= k < |s| ==> IsSpace(s[k]))
  }

  /** The number of whitespace characters at the start of `s`. */
  function LeadingSpace(s: string): (n: nat)
    ensures n <= |s|
    ensures forall k :: 0 <= k < n ==> IsSpace(s[k])
    ensures n < |s| ==> !IsSpace(s[n])
  {
    if |s| == 0 || !IsSpace(s[0]) then 0 else 1 + LeadingSpace(s[1..])
  }

  /** The number of whitespace characters at the end of `s`. */
  function TrailingSpace(s: string): (n: nat)
    ensures n <= |s|
    ensures forall k :: |s| - n <= k < |s| ==> IsSpace(s[k])
    ensures n < |s| ==> !IsSpace(s[|s| - n - 1])
  {
    if |s| == 0 || !IsSpace(s[|s| - 1]) then 0 else 1 + TrailingSpace(s[..|s| - 1])
  }

  /** Python's `str.strip()`: drop leading, then trailing whitespace. */
  function Strip(s: string): string {
    var i := LeadingSpace(s);
    var t := s[i..];
    t[..|t| - TrailingSpace(t)]
  }

  /**
   What Strip computes: `s` splits into whitespace, `Strip(s)` and whitespace,
   and `Strip(s)`, unless empty, neither starts nor ends with whitespace.
   */
  lemma StripBounds(s: string) returns (i: int, j: int)
    ensures IsPadding(s, i, j) && Strip(s) == s[i..j]
    ensures i < j ==> !IsSpace(s[i]) && !IsSpace(s[j - 1])
  {
    i := LeadingSpace(s);
    var t := s[i..];
    var n := TrailingSpace(t);
    j := |s| - n;
    assert forall k :: 0 <= k < |t| ==> t[k] == s[i + k];
    assert forall k :: j <= k < |s| ==> s[k] == t[k - i];
    assert t[..|t| - n] == s[i..j];
  }

  /** A split into whitespace, a part with non-whitespace ends, and whitespace determines Strip. */
  lemma StripUnique(s: string, i: int, j: int)
    requires IsPadding(s, i, j) && i < j
    requires !IsSpace(s[i]) && !IsSpace(s[j - 1])
    ensures Strip(s) == s[i..j]
  {
    var i', j' := StripBounds(s);
  }

  /** Lowering a character neither makes nor removes whitespace. */
  lemma LowerKeepsSpace(c: char)
    ensures IsSpace(LowerChar(c)) == IsSpace(c)
  {
  }
}
