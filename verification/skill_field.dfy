/** Normalisation of a posting's `skills_detected` field into a list of
    skill names (core/graph_analysis.py, the blocks at lines 30-35 and 63-67).

    The field is either a list (kept as is), a comma-separated string (split,
    each piece stripped of surrounding whitespace, empty pieces dropped) or
    any other value (no skills). */
module SkillField {
  import opened Seqs

  /** The raw field as the posting source delivers it. */
  datatype Field =
    | Text(text: string)        // a comma-separated string
    | Items(items: seq<string>) // a list of skill names
    | Other                     // missing value, NaN or any other type

  /** Python's `str.isspace` for one character: the whitespace that
      `str.strip()` removes. */
  predicate IsSpace(c: char) {
    var n := c as int;
    || n == 0x20 || 0x09 <= n <= 0x0D || 0x1C <= n <= 0x1F
    || n == 0x85 || n == 0xA0 || n == 0x1680 || 0x2000 <= n <= 0x200A
    || n == 0x2028 || n == 0x2029 || n == 0x202F || n == 0x205F || n == 0x3000
  }

  /** Comma-joined pieces; the inverse of `Split`. */
  function Join(parts: seq<string>): string
    requires |parts| >= 1
  {
    if |parts| == 1 then parts[0] else parts[0] + "," + Join(parts[1..])
  }

  /** Python's `s.split(",")`: every comma separates two pieces, so `k`
      commas give `k + 1` possibly empty pieces. */
  function Split(s: string): (parts: seq<string>)
    ensures |parts| >= 1
    ensures forall i :: 0 <= i < |parts| ==> ',' !in parts[i]
    ensures Join(parts) == s
    decreases |s|
  {
    var i := FirstIndex(s, ',');
    if i == |s| then [s]
    else
      var rest := Split(s[i + 1..]);
      assert s == s[..i] + "," + s[i + 1..];
      [s[..i]] + rest
  }

  /** Splitting comma-free pieces after joining them gives the pieces back. */
  lemma {:induction false} SplitJoin(parts: seq<string>)
    requires |parts| >= 1
    requires forall i :: 0 <= i < |parts| ==> ',' !in parts[i]
    ensures Split(Join(parts)) == parts
  {
    if |parts| > 1 {
      var s := Join(parts);
      assert s == parts[0] + "," + Join(parts[1..]);
      assert s[|parts[0]|] == ',';
      assert s[..|parts[0]|] == parts[0];
      assert FirstIndex(s, ',') == |parts[0]|;
      assert s[|parts[0]| + 1..] == Join(parts[1..]);
      SplitJoin(parts[1..]);
    } else {
      assert FirstIndex(parts[0], ',') == |parts[0]|;
    }
  }

  /** Number of leading whitespace characters. */
  function LeadingSpaces(s: string): (k: nat)
    ensures k <= |s|
    ensures forall i :: 0 <= i < k ==> IsSpace(s[i])
    ensures k < |s| ==> !IsSpace(s[k])
  {
    if |s| > 0 && IsSpace(s[0]) then 1 + LeadingSpaces(s[1..]) else 0
  }

  /** `s` without its trailing whitespace. */
  function TrimRight(s: string): (r: string)
    ensures |r| <= |s| && r == s[..|r|]
    ensures forall i :: |r| <= i < |s| ==> IsSpace(s[i])
    ensures |r| > 0 ==> !IsSpace(r[|r| - 1])
  {
    if |s| > 0 && IsSpace(s[|s| - 1]) then TrimRight(s[..|s| - 1]) else s
  }

  /** Python's `s.strip()`: the slice of `s` that starts at its first
      non-whitespace character and ends at its last one. */
  function Strip(s: string): (r: string)
    ensures LeadingSpaces(s) + |r| <= |s|
    ensures r == s[LeadingSpaces(s)..LeadingSpaces(s) + |r|]
    ensures forall i :: LeadingSpaces(s) + |r| <= i < |s| ==> IsSpace(s[i])
    ensures |r| > 0 ==> !IsSpace(r[0]) && !IsSpace(r[|r| - 1])
    ensures r == "" <==> forall i :: 0 <= i < |s| ==> IsSpace(s[i])
  {
    var k := LeadingSpaces(s);
    var r := TrimRight(s[k..]);
    assert |r| > 0 ==> r[0] == s[k];
    assert r == "" ==> forall i :: 0 <= i < |s| ==> IsSpace(s[i]) by {
      if r == "" {
        LeadNotSpace(s);
      }
    }
    r
  }

  /** After the leading whitespace, if anything is left, comes a
      non-whitespace character. */
  lemma LeadNotSpace(s: string)
    ensures var k := LeadingSpaces(s);
      k < |s| ==> exists i :: 0 <= i < |s[k..]| && !IsSpace(s[k..][i])
  {
    var k := LeadingSpaces(s);
    if k < |s| {
      assert s[k..][0] == s[k];
    }
  }

  /** A stripped comma-free piece is comma-free and has no surrounding
      whitespace. */
  lemma StripShape(p: string)
    requires ',' !in p
    ensures var r := Strip(p); ',' !in r && (|r| > 0 ==> !IsSpace(r[0]) && !IsSpace(r[|r| - 1]))
  {
    var r := Strip(p);
    var k := LeadingSpaces(p);
    forall i | 0 <= i < |r| ensures r[i] != ',' {
      assert r[i] == p[k + i];
    }
  }

  /** `[p.strip() for p in pieces if p.strip()]`. */
  function StrippedPieces(pieces: seq<string>): (r: seq<string>)
    ensures forall x :: x in r <==> x != "" && exists i :: 0 <= i < |pieces| && Strip(pieces[i]) == x
  {
    if |pieces| == 0 then []
    else
      var rest := StrippedPieces(pieces[1..]);
      assert forall i :: 1 <= i < |pieces| ==> pieces[i] == pieces[1..][i - 1];
      var p := Strip(pieces[0]);
      if p != "" then [p] + rest else rest
  }

  /** The skills of a field as the graph builders see them. */
  function Normalize(f: Field): (skills: seq<string>)
  {
    match f
    case Text(s) => StrippedPieces(Split(s))
    case Items(xs) => xs
    case Other => []
  }

  /** The skills of a string field (which are exactly its non-empty stripped
      comma-separated pieces, by `StrippedPieces`) are never empty and contain
      neither a comma nor surrounding whitespace. */
  lemma NormalizeText(s: string)
    ensures forall x | x in Normalize(Text(s)) ::
      x != "" && ',' !in x && !IsSpace(x[0]) && !IsSpace(x[|x| - 1])
  {
    var parts := Split(s);
    var r := StrippedPieces(parts);
    forall x | x in r
      ensures x != "" && ',' !in x && !IsSpace(x[0]) && !IsSpace(x[|x| - 1])
    {
      var i :| 0 <= i < |parts| && Strip(parts[i]) == x;
      assert ',' !in parts[i];
      StripShape(parts[i]);
    }
  }

  /** A list field passes through unchanged and any other value yields no
      skills. */
  lemma NormalizeOthers(xs: seq<string>)
    ensures Normalize(Items(xs)) == xs
    ensures Normalize(Other) == []
  {
  }
}
