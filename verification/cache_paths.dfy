/** Cache file naming (core/api_client.py:15-22): user-supplied role and
    location are reduced to a file-name-safe form and combined into the name
    of the raw-results file under the data directory. */
module CachePaths {

  /** Python's Unicode tables beyond ASCII: `str.isalnum` and `str.lower`
      for characters from U+0080 on. */
  datatype CharTables = CharTables(isAlnum: char -> bool, lower: char -> string)

  predicate IsAscii(c: char) { c < 128 as char }

  predicate AllAscii(s: string) { forall i | 0 <= i < |s| :: IsAscii(s[i]) }

  predicate IsUpper(c: char) { 'A' <= c <= 'Z' }

  /** `str.isalnum` on an ASCII character. */
  predicate IsAsciiAlnum(c: char) { '0' <= c <= '9' || 'a' <= c <= 'z' || IsUpper(c) }

  /** `str.lower` on an ASCII character. */
  function AsciiLower(c: char): (l: char)
    requires IsAscii(c)
    ensures IsUpper(c) ==> l as int == c as int + 32
    ensures !IsUpper(c) ==> l == c
    ensures IsAscii(l) && !IsUpper(l)
  {
    if IsUpper(c) then (c as int + 32) as char else c
  }

  /** Characters `sanitize` may emit for ASCII input. */
  predicate IsSafe(c: char) { '0' <= c <= '9' || 'a' <= c <= 'z' || c == '_' }

  /** One character of line 16: lowercased when alphanumeric, else `_`. */
  function SanitizeChar(c: char, t: CharTables): string
  {
    if IsAscii(c) then
      if IsAsciiAlnum(c) then [AsciiLower(c)] else "_"
    else if t.isAlnum(c) then t.lower(c)
    else "_"
  }

  /** `sanitize` (lines 15-16). On ASCII input it keeps the length, maps
      each alphanumeric character to its lowercase form and everything else
      to `_`, and so emits only lowercase letters, digits and `_`. */
  function Sanitize(value: string, t: CharTables): (r: string)
    ensures AllAscii(value) ==> |r| == |value|
    ensures AllAscii(value) ==> forall i | 0 <= i < |value| ::
      (IsAsciiAlnum(value[i]) ==> r[i] == AsciiLower(value[i])) && (!IsAsciiAlnum(value[i]) ==> r[i] == '_')
    ensures AllAscii(value) ==> forall i | 0 <= i < |r| :: IsSafe(r[i])
  {
    if |value| == 0 then ""
    else
      var n := |value| - 1;
      var front := Sanitize(value[..n], t);
      assert AllAscii(value) ==> AllAscii(value[..n]);
      front + SanitizeChar(value[n], t)
  }

  /** Safe characters are ASCII, and `sanitize` leaves them unchanged. */
  lemma SafeFixed(c: char)
    requires IsSafe(c)
    ensures IsAscii(c)
    ensures IsAsciiAlnum(c) ==> AsciiLower(c) == c
    ensures !IsAsciiAlnum(c) ==> c == '_'
  {
  }

  /** A string of safe characters is its own sanitized form. */
  lemma SafeUnchanged(value: string, t: CharTables)
    requires forall i | 0 <= i < |value| :: IsSafe(value[i])
    ensures Sanitize(value, t) == value
  {
    forall i | 0 <= i < |value| ensures IsAscii(value[i]) {
      SafeFixed(value[i]);
    }
    var r := Sanitize(value, t);
    forall i | 0 <= i < |value| ensures r[i] == value[i] {
      SafeFixed(value[i]);
    }
  }

  /** `sanitize(sanitize(x)) == sanitize(x)` for ASCII `x`. */
  lemma SanitizeIdempotent(value: string, t: CharTables)
    requires AllAscii(value)
    ensures Sanitize(Sanitize(value, t), t) == Sanitize(value, t)
  {
    SafeUnchanged(Sanitize(value, t), t);
  }

  /** Neither a path separator nor a dot survives `sanitize` of ASCII
      input, so a role or location can neither leave the data directory
      nor change the file's extension. */
  lemma SanitizeNoSeparator(value: string, t: CharTables)
    requires AllAscii(value)
    ensures '/' !in Sanitize(value, t) && '.' !in Sanitize(value, t)
  {
    var r := Sanitize(value, t);
    assert forall i | 0 <= i < |r| :: r[i] != '/' && r[i] != '.';
  }

  /** The file name of line 21. */
  function CacheFileName(role: string, location: string, t: CharTables): string
  {
    "raw_jobs_" + (Sanitize(role, t) + "_" + Sanitize(location, t)) + ".json"
  }

  /** `get_cache_paths` (lines 18-22): the file name appended to the data
      directory, a path given as its components. For ASCII role and
      location the result is one component below the data directory, whose
      name starts with `raw_jobs_`, ends with `.json` and contains no `/`. */
  function CachePath(dataDir: seq<string>, role: string, location: string, t: CharTables): (p: seq<string>)
    ensures |p| == |dataDir| + 1 && p[..|dataDir|] == dataDir
    ensures AllAscii(role) && AllAscii(location) ==>
      var name := p[|dataDir|];
      && |name| >= 14
      && name[..9] == "raw_jobs_"
      && name[|name| - 5..] == ".json"
      && '/' !in name
  {
    var name := CacheFileName(role, location, t);
    CacheNameShape(role, location, t);
    dataDir + [name]
  }

  /** The shape of the file name for ASCII role and location. */
  lemma CacheNameShape(role: string, location: string, t: CharTables)
    ensures AllAscii(role) && AllAscii(location) ==>
      var name := CacheFileName(role, location, t);
      && |name| >= 14
      && name[..9] == "raw_jobs_"
      && name[|name| - 5..] == ".json"
      && '/' !in name
  {
    if AllAscii(role) && AllAscii(location) {
      var name := CacheFileName(role, location, t);
      SanitizeNoSeparator(role, t);
      SanitizeNoSeparator(location, t);
      var mid := Sanitize(role, t) + "_" + Sanitize(location, t);
      assert name == "raw_jobs_" + mid + ".json";
      assert '/' !in mid;
    }
  }

  /** Two ASCII inputs with sanitized parts of equal length share a file
      exactly when their sanitized parts agree. */
  lemma CacheNameInjectiveByParts(r1: string, l1: string, r2: string, l2: string, t: CharTables)
    requires AllAscii(r1) && AllAscii(r2)
    requires |r1| == |r2|
    ensures CacheFileName(r1, l1, t) == CacheFileName(r2, l2, t) <==>
      Sanitize(r1, t) == Sanitize(r2, t) && Sanitize(l1, t) == Sanitize(l2, t)
  {
    var s1, s2 := Sanitize(r1, t), Sanitize(r2, t);
    var t1, t2 := Sanitize(l1, t), Sanitize(l2, t);
    var m1, m2 := s1 + "_" + t1, s2 + "_" + t2;
    if CacheFileName(r1, l1, t) == CacheFileName(r2, l2, t) {
      ConcatCancel("raw_jobs_" + m1, ".json", "raw_jobs_" + m2, ".json");
      ConcatCancel("raw_jobs_", m1, "raw_jobs_", m2);
      ConcatCancel(s1 + "_", t1, s2 + "_", t2);
      ConcatCancel(s1, "_", s2, "_");
    }
  }

  /** Equal concatenations with equally long heads have equal parts. */
  lemma ConcatCancel(a: string, b: string, c: string, d: string)
    requires a + b == c + d && |a| == |c|
    ensures a == c && b == d
  {
    assert a == (a + b)[..|a|];
    assert c == (c + d)[..|c|];
    assert b == (a + b)[|a|..];
    assert d == (c + d)[|c|..];
  }

  /** Distinct inputs can share a cache file: a space and a hyphen both
      become `_`. */
  lemma CacheCollision(t: CharTables)
    ensures "a b" != "a-b"
    ensures CacheFileName("a b", "madrid", t) == CacheFileName("a-b", "madrid", t)
  {
    assert Sanitize("a b", t) == "a_b" by {
      assert AllAscii("a b");
    }
    assert Sanitize("a-b", t) == "a_b" by {
      assert AllAscii("a-b");
    }
  }

  /** The separator is ambiguous too: an underscore moved between role and
      location gives the same file (`data_science` in `remote` and `data`
      in `science_remote`, for instance). */
  lemma SeparatorCollision(a: string, b: string, c: string, t: CharTables)
    requires forall i | 0 <= i < |a| :: IsSafe(a[i])
    requires forall i | 0 <= i < |b| :: IsSafe(b[i])
    requires forall i | 0 <= i < |c| :: IsSafe(c[i])
    ensures a + "_" + b != a
    ensures CacheFileName(a + "_" + b, c, t) == CacheFileName(a, b + "_" + c, t)
  {
    var ab, bc := a + "_" + b, b + "_" + c;
    SafeJoin(a, b);
    SafeJoin(b, c);
    SafeName(ab, c, t);
    SafeName(a, bc, t);
    Regroup(a, b, c);
  }

  /** The two ways of joining three parts with `_` agree. */
  lemma Regroup(a: string, b: string, c: string)
    ensures a + "_" + b + "_" + c == a + "_" + (b + "_" + c)
  {
  }

  /** Joining safe strings with `_` gives a safe string. */
  lemma SafeJoin(a: string, b: string)
    requires forall i | 0 <= i < |a| :: IsSafe(a[i])
    requires forall i | 0 <= i < |b| :: IsSafe(b[i])
    ensures forall i | 0 <= i < |a + "_" + b| :: IsSafe((a + "_" + b)[i])
  {
  }

  /** Safe role and location appear verbatim in the file name. */
  lemma SafeName(role: string, location: string, t: CharTables)
    requires forall i | 0 <= i < |role| :: IsSafe(role[i])
    requires forall i | 0 <= i < |location| :: IsSafe(location[i])
    ensures CacheFileName(role, location, t) == "raw_jobs_" + (role + "_" + location) + ".json"
  {
    SafeUnchanged(role, t);
    SafeUnchanged(location, t);
  }
}
