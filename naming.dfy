/** Local file names for remote photos: the sanitised, record-qualified name that
    `generate_unique_file_name` builds, and the `duplicate-` path that the saver falls
    back to when that name is already taken by a file of another size. Python's string
    operations that the code relies on (`rfind`, negative slice bounds, `re.sub` with a
    character class, `str.replace`) are written out here. */
module Naming {

  /** The characters kept by the class `[A-Za-z0-9_]`. */
  predicate IsNameChar(c: char) {
    ('A' <= c <= 'Z') || ('a' <= c <= 'z') || ('0' <= c <= '9') || c == '_'
  }

  predicate AllNameChars(s: string) {
    forall i :: 0 <= i < |s| ==> IsNameChar(s[i])
  }

  /** `re.sub(r'[^A-Za-z0-9_]', '', s)`: drops every other character and keeps the
      order of the rest. */
  function Sanitize(s: string): (r: string)
    ensures AllNameChars(r)
    ensures |r| <= |s|
  {
    if s == [] then []
    else if IsNameChar(s[0]) then [s[0]] + Sanitize(s[1..])
    else Sanitize(s[1..])
  }

  /** Sanitising keeps every occurrence of every allowed character and nothing else. */
  lemma {:induction false} SanitizeCounts(s: string)
    ensures forall c :: IsNameChar(c) ==> multiset(Sanitize(s))[c] == multiset(s)[c]
    ensures forall c :: !IsNameChar(c) ==> multiset(Sanitize(s))[c] == 0
  {
    if s != [] {
      SanitizeCounts(s[1..]);
      assert s == [s[0]] + s[1..];
      assert multiset(s) == multiset{s[0]} + multiset(s[1..]);
    }
  }

  /** Sanitising works character by character, so the kept characters stay in their
      input order: the result for a concatenation is the concatenation of the results. */
  lemma {:induction false} SanitizeAppend(a: string, b: string)
    ensures Sanitize(a + b) == Sanitize(a) + Sanitize(b)
  {
    if a == [] {
      assert a + b == b;
    } else {
      assert (a + b)[0] == a[0];
      assert (a + b)[1..] == a[1..] + b;
      SanitizeAppend(a[1..], b);
    }
  }

  /** A name made of allowed characters only is left as it is. */
  lemma {:induction false} SanitizeKeepsCleanNames(s: string)
    requires AllNameChars(s)
    ensures Sanitize(s) == s
  {
    if s != [] {
      SanitizeKeepsCleanNames(s[1..]);
    }
  }

  /** `s.rfind(c)`: the index of the last occurrence of `c`, or -1 when there is none. */
  function RFind(s: string, c: char): (r: int)
    ensures -1 <= r < |s|
    ensures r == -1 <==> c !in s
    ensures 0 <= r ==> s[r] == c && c !in s[r + 1..]
  {
    if s == [] then -1
    else if s[|s| - 1] == c then |s| - 1
    else
      assert s == s[..|s| - 1] + [s[|s| - 1]];
      RFind(s[..|s| - 1], c)
  }

  /** Where a Python slice bound `i` falls in a string of length `n`: a negative bound
      counts from the end, and the position is clamped to `[0, n]`. */
  function SliceBound(n: nat, i: int): (k: nat)
    ensures k <= n
    ensures 0 <= i <= n ==> k == i
    ensures i < 0 && 0 <= n + i ==> k == n + i
    ensures i > n ==> k == n
    ensures n + i < 0 ==> k == 0
  {
    if i < 0 then (if n + i < 0 then 0 else n + i)
    else if i > n then n
    else i
  }

  /** The two slices `filename[:i]` and `filename[i:]` taken at `i = filename.rfind('.')`. */
  datatype Split = Split(base: string, ext: string)

  function SplitName(filename: string): (r: Split)
  {
    var k := SliceBound(|filename|, RFind(filename, '.'));
    Split(filename[..k], filename[k..])
  }

  lemma SplitNameCases(filename: string)
    ensures var r := SplitName(filename);
      && r.base + r.ext == filename
      && ('.' in filename ==> |r.ext| >= 1 && r.ext[0] == '.' && '.' !in r.ext[1..])
      && ('.' !in filename && filename != [] ==> r.ext == [filename[|filename| - 1]])
      && (filename == [] ==> r.base == [] && r.ext == [])
  {
    var k := SliceBound(|filename|, RFind(filename, '.'));
    assert filename[..k] + filename[k..] == filename;
  }

  /** `generate_unique_file_name`: the sanitised base, a dash, the remote record name and
      the unsanitised extension. The result has the shape `[A-Za-z0-9_]*-<record><ext>`. */
  function UniqueName(filename: string, recordName: string): (r: string)
    ensures |r| > |recordName|
  {
    var parts := SplitName(filename);
    Sanitize(parts.base) + "-" + recordName + parts.ext
  }

  /** The result matches `[A-Za-z0-9_]*-<record><ext>`, where the part before the dash
      is no longer than the name's base. */
  lemma UniqueNameShape(filename: string, recordName: string)
    ensures var r, ext := UniqueName(filename, recordName), SplitName(filename).ext;
            var n := |r| - |recordName| - |ext| - 1;
            && 0 <= n <= |SplitName(filename).base|
            && AllNameChars(r[..n])
            && r[n..] == "-" + recordName + ext
  {
    var parts := SplitName(filename);
    var base := Sanitize(parts.base);
    var tail := "-" + recordName + parts.ext;
    assert base + "-" + recordName + parts.ext == base + tail;
    assert (base + tail)[..|base|] == base && (base + tail)[|base|..] == tail;
  }

  /** With a dot, the name is split at its last dot. */
  lemma UniqueNameAtLastDot(filename: string, recordName: string)
    requires '.' in filename
    ensures var k := RFind(filename, '.');
            && 0 <= k && filename[k] == '.' && '.' !in filename[k + 1..]
            && UniqueName(filename, recordName)
               == Sanitize(filename[..k]) + "-" + recordName + filename[k..]
  {
    var k := RFind(filename, '.');
    assert SliceBound(|filename|, k) == k;
    assert SplitName(filename) == Split(filename[..k], filename[k..]);
  }

  /** Without a dot, `rfind` gives -1: the base loses the last character, and that
      character is the suffix. */
  lemma UniqueNameWithoutDot(filename: string, recordName: string)
    requires '.' !in filename && filename != []
    ensures var n := |filename|;
            UniqueName(filename, recordName)
            == Sanitize(filename[..n - 1]) + "-" + recordName + [filename[n - 1]]
  {
    var n := |filename|;
    assert SliceBound(n, RFind(filename, '.')) == n - 1;
    assert SplitName(filename) == Split(filename[..n - 1], filename[n - 1..]);
    assert filename[n - 1..] == [filename[n - 1]];
  }

  /** Two photos with the same file name but different record names never share a
      local name. */
  lemma UniqueNameSeparatesRecords(filename: string, a: string, b: string)
    requires a != b
    ensures UniqueName(filename, a) != UniqueName(filename, b)
  {
    var parts := SplitName(filename);
    TailSeparates(Sanitize(parts.base), a, b, parts.ext);
  }

  lemma TailSeparates(base: string, a: string, b: string, ext: string)
    requires a != b
    ensures base + "-" + a + ext != base + "-" + b + ext
  {
    var ra, rb := base + "-" + a + ext, base + "-" + b + ext;
    if |a| == |b| {
      var n := |base| + 1;
      assert ra[n..n + |a|] == a;
      assert rb[n..n + |b|] == b;
    } else {
      assert |ra| != |rb|;
    }
  }

  /** True when `pat` occurs in `s` starting at position `i`. */
  predicate OccursAt(s: string, pat: string, i: nat) {
    i + |pat| <= |s| && s[i..i + |pat|] == pat
  }

  /** `s.replace(pat, rep)` for a non-empty `pat`: every non-overlapping occurrence,
      found left to right, is replaced. */
  function Replace(s: string, pat: string, rep: string): string
    requires pat != []
    decreases |s|
  {
    if |s| < |pat| then s
    else if s[..|pat|] == pat then rep + Replace(s[|pat|..], pat, rep)
    else [s[0]] + Replace(s[1..], pat, rep)
  }

  /** Where the pattern does not occur, the string is left as it is. */
  lemma {:induction false} ReplaceWithoutPattern(s: string, pat: string, rep: string)
    requires pat != []
    requires forall i: nat :: !OccursAt(s, pat, i)
    ensures Replace(s, pat, rep) == s
    decreases |s|
  {
    if |s| >= |pat| {
      assert !OccursAt(s, pat, 0);
      forall i: nat
        ensures !OccursAt(s[1..], pat, i)
      {
        assert !OccursAt(s, pat, i + 1);
        if i + |pat| <= |s[1..]| {
          assert s[1..][i..i + |pat|] == s[i + 1..i + 1 + |pat|];
        }
      }
      ReplaceWithoutPattern(s[1..], pat, rep);
      assert s == [s[0]] + s[1..];
    }
  }

  /** A replacement longer than the pattern never shortens the string, and lengthens it
      as soon as the pattern occurs at all. */
  lemma {:induction false} ReplaceGrows(s: string, pat: string, rep: string)
    requires pat != [] && |rep| > |pat|
    ensures |Replace(s, pat, rep)| >= |s|
    ensures (exists i: nat :: OccursAt(s, pat, i)) ==> |Replace(s, pat, rep)| > |s|
    decreases |s|
  {
    if |s| < |pat| {
      assert forall i: nat :: !OccursAt(s, pat, i);
    } else if s[..|pat|] == pat {
      ReplaceGrows(s[|pat|..], pat, rep);
    } else {
      ReplaceGrows(s[1..], pat, rep);
      if exists i: nat :: OccursAt(s, pat, i) {
        var i: nat :| OccursAt(s, pat, i);
        assert i != 0;
        assert s[1..][i - 1..i - 1 + |pat|] == s[i..i + |pat|];
        assert OccursAt(s[1..], pat, i - 1);
      }
    }
  }

  /** A prefix in which no occurrence of the pattern starts is left as it is. */
  lemma {:induction false} ReplaceSkipsPrefix(p: string, s: string, pat: string, rep: string)
    requires pat != []
    requires forall i: nat :: i < |p| ==> !OccursAt(p + s, pat, i)
    ensures Replace(p + s, pat, rep) == p + Replace(s, pat, rep)
    decreases |p|
  {
    if p != [] {
      assert !OccursAt(p + s, pat, 0);
      assert (p + s)[1..] == p[1..] + s;
      forall i: nat | i < |p[1..]|
        ensures !OccursAt(p[1..] + s, pat, i)
      {
        assert !OccursAt(p + s, pat, i + 1);
        if i + 1 + |pat| <= |p + s| {
          assert (p + s)[i + 1..i + 1 + |pat|] == (p[1..] + s)[i..i + |pat|];
        }
      }
      ReplaceSkipsPrefix(p[1..], s, pat, rep);
      if |p + s| >= |pat| {
        assert (p + s)[..|pat|] != pat;
      }
    } else {
      assert p + s == s;
    }
  }

  /** The path `photos_path.replace(name, 'duplicate-' + name)` that a file with a
      clashing name is written to instead of the canonical path `dir + name`. */
  function DuplicatePath(dir: string, name: string): (r: string)
    requires name != []
    // The duplicate path is never the canonical path.
    ensures r != dir + name
    // When the name does not occur earlier in the path, only the final name is prefixed.
    ensures (forall i: nat :: i < |dir| ==> !OccursAt(dir + name, name, i))
              ==> r == dir + "duplicate-" + name
  {
    var path := dir + name;
    assert OccursAt(path, name, |dir|);
    ReplaceGrows(path, name, "duplicate-" + name);
    if forall i: nat :: i < |dir| ==> !OccursAt(dir + name, name, i) then
      ReplaceSkipsPrefix(dir, name, name, "duplicate-" + name);
      assert Replace(name, name, "duplicate-" + name) == "duplicate-" + name;
      Replace(path, name, "duplicate-" + name)
    else
      Replace(path, name, "duplicate-" + name)
  }
}
