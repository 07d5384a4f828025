/** Character and path helpers with PHP's byte-oriented, ASCII-only
    semantics: `strtolower`, the case folding of the natural compare,
    `basename` and the extension part of `pathinfo`. */
module Text {

  predicate IsDigit(c: char) {
    '0' <= c <= '9'
  }

  /** Length of the run of decimal digits at the front of `s`. */
  function DigitPrefix(s: string): (k: nat)
    ensures k <= |s|
    ensures forall i :: 0 <= i < k ==> IsDigit(s[i])
    ensures k < |s| ==> !IsDigit(s[k])
  {
    if |s| == 0 || !IsDigit(s[0]) then 0 else 1 + DigitPrefix(s[1..])
  }

  /** The value of a string of decimal digits, most significant first. */
  function DecimalValue(ds: string): (v: nat)
    requires forall i :: 0 <= i < |ds| ==> IsDigit(ds[i])
  {
    if |ds| == 0 then 0
    else
      assert IsDigit(ds[|ds| - 1]);
      DecimalValue(ds[..|ds| - 1]) * 10 + (ds[|ds| - 1] as int - '0' as int)
  }

  /** ASCII lower-casing, as `strtolower` does since PHP 8. */
  function LowerChar(c: char): (r: char)
    ensures 'A' <= c <= 'Z' ==> r as int == c as int + 32
    ensures !('A' <= c <= 'Z') ==> r == c
  {
    if 'A' <= c <= 'Z' then (c as int + 32) as char else c
  }

  /** ASCII upper-casing, the folding PHP's case-insensitive natural compare applies. */
  function UpperChar(c: char): (r: char)
    ensures 'a' <= c <= 'z' ==> r as int == c as int - 32
    ensures !('a' <= c <= 'z') ==> r == c
  {
    if 'a' <= c <= 'z' then (c as int - 32) as char else c
  }

  function Lower(s: string): (r: string)
    ensures |r| == |s|
    ensures forall i :: 0 <= i < |s| ==> r[i] == LowerChar(s[i])
  {
    seq(|s|, i requires 0 <= i < |s| => LowerChar(s[i]))
  }

  /** The longest suffix of `s` that does not contain `c`. */
  function AfterLast(s: string, c: char): (r: string)
    ensures c !in r
    ensures |r| <= |s| && r == s[|s| - |r|..]
    ensures |r| < |s| ==> s[|s| - |r| - 1] == c
    ensures c !in s ==> r == s
    ensures c in s ==> |r| < |s|
    decreases |s|
  {
    if |s| == 0 then ""
    else if s[|s| - 1] == c then ""
    else
      var init := s[..|s| - 1];
      var rest := AfterLast(init, c);
      assert init + [s[|s| - 1]] == s;
      assert c in s ==> c in init;
      rest + [s[|s| - 1]]
  }

  /** The last path component: everything after the final `/`. */
  function Basename(path: string): (r: string)
    ensures '/' !in r
    ensures '/' !in path ==> r == path
  {
    AfterLast(path, '/')
  }

  /** The extension as `pathinfo` reports it: the text after the last `.`
      of the base name, or the empty string when the base name has no `.`. */
  function Extension(path: string): (r: string)
    ensures '.' !in r && '/' !in r
    ensures '.' !in Basename(path) ==> r == ""
    ensures '.' in Basename(path) ==> |r| < |Basename(path)| && Basename(path)[|Basename(path)| - |r| - 1] == '.'
    ensures '.' in Basename(path) ==> r == Basename(path)[|Basename(path)| - |r|..]
  {
    var b := Basename(path);
    if '.' in b then AfterLast(b, '.') else ""
  }

  /** After the last `c` of `a + [c] + b` comes `b`, when `b` has no `c`. */
  lemma {:induction false} AfterLastOfJoin(a: string, c: char, b: string)
    requires c !in b
    ensures AfterLast(a + [c] + b, c) == b
    decreases |b|
  {
    var s := a + [c] + b;
    if |b| > 0 {
      var init := b[..|b| - 1];
      assert s[..|s| - 1] == a + [c] + init;
      assert b[|b| - 1] in b;
      assert init + [b[|b| - 1]] == b;
      assert c !in init by {
        forall x | x in init ensures x != c {
          var k :| 0 <= k < |init| && init[k] == x;
          assert b[k] == x;
        }
      }
      AfterLastOfJoin(a, c, init);
    }
  }

  /** The extension of `stem.ext` is `ext`. */
  lemma ExtensionOfName(stem: string, ext: string)
    requires '/' !in stem && '/' !in ext && '.' !in ext
    ensures Extension(stem + "." + ext) == ext
  {
    var name := stem + "." + ext;
    assert '/' !in name;
    assert name[|stem|] == '.';
    AfterLastOfJoin(stem, '.', ext);
  }

  /** A name without `/` joined onto a directory path is its own base name. */
  lemma BasenameOfJoin(dir: string, name: string)
    requires '/' !in name
    requires |dir| > 0 && dir[|dir| - 1] == '/'
    ensures Basename(dir + name) == name
  {
    assert dir == dir[..|dir| - 1] + ['/'];
    assert dir + name == dir[..|dir| - 1] + ['/'] + name;
    AfterLastOfJoin(dir[..|dir| - 1], '/', name);
  }
}
