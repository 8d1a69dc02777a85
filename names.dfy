/**
  The name validator `check_name`: whether a `repository[:tag]` argument is a
  well-formed image reference. The two regular expressions of the source are
  written out as predicates over character classes:

    tag:        [a-zA-Z0-9_][a-zA-Z0-9_.-]*
    component:  [a-z0-9]+(?:(?:[._]|__|[-]*)[a-z0-9]+)*

  Both are anchored with `$`, which Python also lets match just before a final
  newline; `CheckNameAsWritten` keeps that behaviour, `CheckName` is the full
  match the grammar intends.
*/
module Names {

  /** `[a-z0-9]`: the characters of the alphanumeric runs of a path component. */
  predicate IsLowerAlnum(c: char) {
    'a' <= c <= 'z' || '0' <= c <= '9'
  }

  /** `[a-zA-Z0-9_]`: the characters a tag may start with. */
  predicate IsTagHead(c: char) {
    'a' <= c <= 'z' || 'A' <= c <= 'Z' || '0' <= c <= '9' || c == '_'
  }

  /** `[a-zA-Z0-9_.-]`: the characters a tag may continue with. */
  predicate IsTagChar(c: char) {
    IsTagHead(c) || c == '.' || c == '-'
  }

  // ---------------------------------------------------------------------------
  // Splitting

  /** The position of the first `c` in `s`. */
  function FirstIndex(s: string, c: char): (i: nat)
    requires c in s
    ensures i < |s| && s[i] == c && c !in s[..i]
  {
    if s[0] == c then 0
    else
      var j := FirstIndex(s[1..], c);
      assert s[..j + 1] == [s[0]] + s[1..][..j];
      1 + j
  }

  /**
    `image.split(":", 1)` when the image holds a colon, else the whole image
    and the default tag `noTag` (`"latest"` in check_name, `""` in clean_repo).
  */
  function SplitImage(image: string, noTag: string): (parts: (string, string))
    ensures ':' in image ==> image == parts.0 + [':'] + parts.1 && ':' !in parts.0
    ensures ':' !in image ==> parts == (image, noTag)
  {
    if ':' in image then
      var i := FirstIndex(image, ':');
      assert image == image[..i] + [':'] + image[i + 1..];
      (image[..i], image[i + 1..])
    else
      (image, noTag)
  }

  /** The pieces joined back together with `sep` between them. */
  function Join(parts: seq<string>, sep: char): (s: string)
    requires |parts| > 0
    decreases |parts|
  {
    if |parts| == 1 then parts[0] else parts[0] + [sep] + Join(parts[1..], sep)
  }

  /**
    `s.split(sep)`: the pieces between the occurrences of `sep`, empty pieces
    included; joining them with `sep` gives `s` back.
  */
  function Split(s: string, sep: char): (parts: seq<string>)
    ensures |parts| > 0
    ensures forall i :: 0 <= i < |parts| ==> sep !in parts[i]
    ensures Join(parts, sep) == s
    decreases |s|
  {
    if s == [] then [[]]
    else
      var rest := Split(s[1..], sep);
      if s[0] == sep then
        assert ([[]] + rest)[1..] == rest;
        [[]] + rest
      else
        var parts := [[s[0]] + rest[0]] + rest[1..];
        assert |rest| > 1 ==> parts[1..] == rest[1..];
        assert s == [s[0]] + s[1..];
        parts
  }

  /** Splitting the join of separator-free pieces gives the pieces back. */
  lemma {:induction false} SplitJoin(parts: seq<string>, sep: char)
    requires |parts| > 0
    requires forall i :: 0 <= i < |parts| ==> sep !in parts[i]
    ensures Split(Join(parts, sep), sep) == parts
    decreases |parts|
  {
    if |parts| == 1 {
      SplitFree(parts[0], sep);
    } else {
      SplitJoin(parts[1..], sep);
      SplitJoinStep(parts[0], parts[1..], sep);
      assert Join(parts, sep) == parts[0] + ([sep] + Join(parts[1..], sep));
      assert parts == [parts[0]] + parts[1..];
    }
  }

  /** One more piece in front of pieces that split back. */
  lemma SplitJoinStep(p: string, rest: seq<string>, sep: char)
    requires |rest| > 0 && sep !in p
    requires Split(Join(rest, sep), sep) == rest
    ensures Split(p + ([sep] + Join(rest, sep)), sep) == [p] + rest
  {
    var tail := Join(rest, sep);
    var t := [sep] + tail;
    SplitLeading(tail, sep);
    assert Split(t, sep) == [[]] + rest;
    SplitPrefix(p, t, sep);
    assert ([[]] + rest)[1..] == rest;
    assert p + [] == p;
  }

  /** A leading separator splits off an empty first piece. */
  lemma SplitLeading(t: string, sep: char)
    ensures Split([sep] + t, sep) == [[]] + Split(t, sep)
  {
    assert ([sep] + t)[1..] == t;
  }

  /** A separator-free string is a single piece. */
  lemma {:induction false} SplitFree(p: string, sep: char)
    requires sep !in p
    ensures Split(p, sep) == [p]
    decreases |p|
  {
    if p != [] {
      SplitFree(p[1..], sep);
      assert p == [p[0]] + p[1..];
    }
  }

  /** A separator-free prefix is glued to the first piece of what follows. */
  lemma {:induction false} SplitPrefix(p: string, t: string, sep: char)
    requires sep !in p
    ensures Split(p + t, sep) == [p + Split(t, sep)[0]] + Split(t, sep)[1..]
    decreases |p|
  {
    if p != [] {
      SplitPrefix(p[1..], t, sep);
      assert (p + t)[1..] == p[1..] + t;
      assert (p + t)[0] == p[0];
      var u := Split(t, sep);
      assert Split(p + t, sep) == [[p[0]] + (p[1..] + u[0])] + u[1..];
      assert [p[0]] + (p[1..] + u[0]) == p + u[0];
    } else {
      var u := Split(t, sep);
      assert p + t == t;
      assert p + u[0] == u[0];
      assert u == [u[0]] + u[1..];
    }
  }

  /** A leading separator makes the first piece empty. */
  lemma LeadingSeparator(s: string, sep: char)
    requires s != [] && s[0] == sep
    ensures Split(s, sep)[0] == []
  {
  }

  /**
    A trailing separator or two adjacent separators make some piece after the
    first one empty.
  */
  lemma {:induction false} InnerEmptyPiece(s: string, sep: char)
    requires s != []
    requires s[|s| - 1] == sep || exists i :: 0 <= i < |s| - 1 && s[i] == sep && s[i + 1] == sep
    ensures exists k :: 1 <= k < |Split(s, sep)| && Split(s, sep)[k] == []
    decreases |s|
  {
    var parts := Split(s, sep);
    var rest := Split(s[1..], sep);
    if s[0] == sep {
      assert parts == [[]] + rest;
      if |s| == 1 {
        assert rest == [[]];
        assert parts[1] == [];
      } else if s[1] == sep {
        LeadingSeparator(s[1..], sep);
        assert parts[1] == [];
      } else {
        if s[|s| - 1] != sep {
          var i :| 0 <= i < |s| - 1 && s[i] == sep && s[i + 1] == sep;
          assert i != 0;
          assert s[1..][i - 1] == sep && s[1..][i] == sep;
        }
        InnerEmptyPiece(s[1..], sep);
        var k :| 1 <= k < |rest| && rest[k] == [];
        assert parts[k + 1] == [];
      }
    } else {
      assert |s| > 1;
      if s[|s| - 1] != sep {
        var i :| 0 <= i < |s| - 1 && s[i] == sep && s[i + 1] == sep;
        assert i != 0;
        assert s[1..][i - 1] == sep && s[1..][i] == sep;
      }
      InnerEmptyPiece(s[1..], sep);
      var k :| 1 <= k < |rest| && rest[k] == [];
      assert parts == [[s[0]] + rest[0]] + rest[1..];
      assert parts[k] == [];
    }
  }

  /** Every character of a piece is a character of the split string. */
  lemma {:induction false} PieceCharsInJoin(parts: seq<string>, sep: char, i: nat, c: char)
    requires i < |parts| && c in parts[i]
    ensures c in Join(parts, sep)
    decreases |parts|
  {
    if i > 0 {
      PieceCharsInJoin(parts[1..], sep, i - 1, c);
    }
  }

  /** Every character of a join other than the separator is a character of some piece. */
  lemma {:induction false} JoinCharsInPieces(parts: seq<string>, sep: char, c: char)
    requires |parts| > 0 && c in Join(parts, sep) && c != sep
    ensures exists i :: 0 <= i < |parts| && c in parts[i]
    decreases |parts|
  {
    if |parts| > 1 && c !in parts[0] {
      JoinCharsInPieces(parts[1..], sep, c);
      var i :| 0 <= i < |parts[1..]| && c in parts[1..][i];
      assert c in parts[i + 1];
    }
  }

  // ---------------------------------------------------------------------------
  // The tag grammar

  /** `[a-zA-Z0-9_][a-zA-Z0-9_.-]*` matching the whole tag. */
  predicate TagMatch(tag: string) {
    |tag| > 0 && IsTagHead(tag[0]) && forall i :: 1 <= i < |tag| ==> IsTagChar(tag[i])
  }

  // ---------------------------------------------------------------------------
  // The path-component grammar

  /** The number of dashes `s` starts with. */
  function DashRun(s: string): (n: nat)
    ensures n <= |s|
    ensures forall i :: 0 <= i < n ==> s[i] == '-'
    ensures n < |s| ==> s[n] != '-'
    decreases |s|
  {
    if s != [] && s[0] == '-' then 1 + DashRun(s[1..]) else 0
  }

  /**
    The length of the separator `(?:[._]|__|[-]*)` at the start of `s`; 0 when
    `s` does not start with a separator character.
  */
  function SeparatorLength(s: string): nat
  {
    if s == [] then 0
    else if s[0] == '.' then 1
    else if s[0] == '_' then (if |s| > 1 && s[1] == '_' then 2 else 1)
    else DashRun(s)
  }

  /**
    What may follow an alphanumeric character in a component: more
    alphanumerics, or a separator followed by a new alphanumeric run. The
    character classes of the separators and the runs are disjoint, so the
    longest separator is the only one that can be followed by a run.
  */
  predicate RunTail(s: string)
    decreases |s|
  {
    if s == [] then true
    else if IsLowerAlnum(s[0]) then RunTail(s[1..])
    else
      var k := SeparatorLength(s);
      0 < k < |s| && IsLowerAlnum(s[k]) && RunTail(s[k + 1..])
  }

  /** `[a-z0-9]+(?:(?:[._]|__|[-]*)[a-z0-9]+)*` matching the whole component. */
  predicate ComponentMatch(s: string) {
    |s| > 0 && IsLowerAlnum(s[0]) && RunTail(s[1..])
  }

  /** The separators a component may hold between alphanumeric runs: `.`, `_`, `__` or one or more `-`. */
  predicate IsSeparator(r: string) {
    r == "." || r == "_" || r == "__" || (|r| > 0 && forall i :: 0 <= i < |r| ==> r[i] == '-')
  }

  /** `s[i..j]` is a maximal run of non-alphanumeric characters inside `s`. */
  predicate IsGap(s: string, i: int, j: int) {
    0 < i < j < |s| && IsLowerAlnum(s[i - 1]) && IsLowerAlnum(s[j]) &&
    forall k :: i <= k < j ==> !IsLowerAlnum(s[k])
  }

  /**
    The shape of a component, stated without the regular expression: it starts
    and ends with `[a-z0-9]` and every maximal non-alphanumeric run in it is a
    separator.
  */
  ghost predicate ComponentShape(s: string) {
    |s| > 0 && IsLowerAlnum(s[0]) && IsLowerAlnum(s[|s| - 1]) &&
    forall i, j :: IsGap(s, i, j) ==> IsSeparator(s[i..j])
  }

  /** The first alphanumeric at or after `i`. */
  function FirstAlnumFrom(s: string, i: nat): (j: nat)
    requires i < |s| && IsLowerAlnum(s[|s| - 1])
    ensures i <= j < |s| && IsLowerAlnum(s[j])
    ensures forall k :: i <= k < j ==> !IsLowerAlnum(s[k])
    decreases |s| - i
  {
    if IsLowerAlnum(s[i]) then i else FirstAlnumFrom(s, i + 1)
  }

  /** A separator that is followed by an alphanumeric is a run of non-alphanumerics. */
  lemma SeparatorLengthSound(s: string)
    requires 0 < SeparatorLength(s) < |s| && IsLowerAlnum(s[SeparatorLength(s)])
    ensures IsSeparator(s[..SeparatorLength(s)])
    ensures forall m :: 0 <= m < SeparatorLength(s) ==> !IsLowerAlnum(s[m])
  {
    var k := SeparatorLength(s);
    if s[0] == '.' {
      assert s[..k] == ".";
    } else if s[0] == '_' {
      if k == 2 { assert s[..k] == "__"; } else { assert s[..k] == "_"; }
    }
  }

  /** A separator run ended by an alphanumeric is exactly what SeparatorLength measures. */
  lemma SeparatorLengthOfRun(s: string, n: nat)
    requires 0 < n < |s| && IsSeparator(s[..n]) && IsLowerAlnum(s[n])
    ensures SeparatorLength(s) == n
  {
    if s[..n] == "." {
      assert s[0] == '.';
    } else if s[..n] == "_" {
      assert s[0] == '_';
    } else if s[..n] == "__" {
      assert s[0] == '_' && s[1] == '_';
    } else {
      assert s[..n][0] == '-';
      var r := DashRun(s);
    }
  }

  /** Gaps of `t` that start after position `m` are the gaps of `t[m..]`, shifted by `m`. */
  lemma GapShift(t: string, m: nat, i: int, j: int)
    requires m < |t| && 0 < i < j < |t| - m
    ensures IsGap(t, i + m, j + m) <==> IsGap(t[m..], i, j)
    ensures t[i + m..j + m] == t[m..][i..j]
  {
    if IsGap(t[m..], i, j) {
      forall k | i + m <= k < j + m ensures !IsLowerAlnum(t[k]) {
        assert t[k] == t[m..][k - m];
      }
    }
    if IsGap(t, i + m, j + m) {
      forall k | i <= k < j ensures !IsLowerAlnum(t[m..][k]) {
        assert t[m..][k] == t[k + m];
      }
    }
  }

  /** Dropping a prefix `t[..m]` that ends in an alphanumeric keeps the shape of the rest. */
  lemma ShapeSuffix(t: string, m: nat)
    requires 0 < m < |t| && IsLowerAlnum(t[m]) && ComponentShape(t)
    ensures ComponentShape(t[m..])
  {
    forall i, j | IsGap(t[m..], i, j) ensures IsSeparator(t[m..][i..j]) {
      GapShift(t, m, i, j);
    }
  }

  /**
    `t` has the shape of a component if it starts with an alphanumeric, the
    gaps inside `t[..m + 1]` are separators, `t[m]` is alphanumeric and
    `t[m..]` has the shape.
  */
  lemma ShapePrefix(t: string, m: nat)
    requires 0 < m < |t| && IsLowerAlnum(t[0]) && IsLowerAlnum(t[m]) && ComponentShape(t[m..])
    requires forall i, j :: IsGap(t, i, j) && j <= m ==> IsSeparator(t[i..j])
    ensures ComponentShape(t)
  {
    assert t[|t| - 1] == t[m..][|t| - 1 - m];
    forall i, j | IsGap(t, i, j) ensures IsSeparator(t[i..j]) {
      if j > m {
        // t[m] is alphanumeric, so a gap that ends after m starts after m
        assert i > m;
        GapShift(t, m, i - m, j - m);
      }
    }
  }

  /** A leading alphanumeric followed by a separator and a component shape gives a component shape. */
  lemma SeparatorStepShape(t: string)
    requires |t| > 1 && IsLowerAlnum(t[0]) && !IsLowerAlnum(t[1])
    requires var k := SeparatorLength(t[1..]);
             0 < k < |t| - 1 && IsLowerAlnum(t[k + 1]) && ComponentShape(t[k + 1..])
    ensures ComponentShape(t)
  {
    var s := t[1..];
    var k := SeparatorLength(s);
    var m := k + 1;
    SeparatorLengthSound(s);
    forall p | 1 <= p < m ensures !IsLowerAlnum(t[p]) {
      assert t[p] == s[p - 1];
    }
    forall i, j | IsGap(t, i, j) && j <= m ensures IsSeparator(t[i..j]) {
      assert i == 1;
      assert j == m;
      assert t[i..j] == s[..k];
    }
    ShapePrefix(t, m);
  }

  /** A component shape whose second character is not alphanumeric opens with a separator. */
  lemma ShapeSeparatorStep(t: string)
    requires ComponentShape(t) && |t| > 1 && !IsLowerAlnum(t[1])
    ensures var k := SeparatorLength(t[1..]);
            0 < k < |t| - 1 && IsLowerAlnum(t[k + 1]) && ComponentShape(t[k + 1..])
  {
    var s := t[1..];
    var j := FirstAlnumFrom(t, 1);
    assert IsGap(t, 1, j);
    assert t[1..j] == s[..j - 1];
    SeparatorLengthOfRun(s, j - 1);
    ShapeSuffix(t, j);
  }

  /** The recognizer for what follows a leading alphanumeric agrees with the shape. */
  lemma {:induction false} ShapeOfTail(t: string)
    requires |t| > 0 && IsLowerAlnum(t[0])
    ensures RunTail(t[1..]) <==> ComponentShape(t)
    decreases |t|
  {
    if |t| == 1 {
      assert t[1..] == [];
    } else if IsLowerAlnum(t[1]) {
      ShapeOfTail(t[1..]);
      assert t[1..][1..] == t[2..];
      if ComponentShape(t) {
        ShapeSuffix(t, 1);
      }
      if ComponentShape(t[1..]) {
        ShapePrefix(t, 1);
      }
    } else {
      var s := t[1..];
      var k := SeparatorLength(s);
      if 0 < k < |s| && IsLowerAlnum(s[k]) {
        ShapeOfTail(t[k + 1..]);
        assert s[k + 1..] == t[k + 1..][1..];
        if RunTail(s) {
          SeparatorStepShape(t);
        }
      }
      if ComponentShape(t) {
        ShapeSeparatorStep(t);
      }
    }
  }

  /** The component recognizer accepts exactly the strings of component shape. */
  lemma ComponentMatchIffShape(s: string)
    ensures ComponentMatch(s) <==> ComponentShape(s)
  {
    if |s| > 0 && IsLowerAlnum(s[0]) {
      ShapeOfTail(s);
    }
  }

  /** A component holds only lowercase letters, digits, `.`, `_` and `-`. */
  lemma {:induction false} RunTailCharset(s: string)
    requires RunTail(s)
    ensures forall i :: 0 <= i < |s| ==> IsLowerAlnum(s[i]) || s[i] in "._-"
    decreases |s|
  {
    if s != [] {
      if IsLowerAlnum(s[0]) {
        RunTailCharset(s[1..]);
        assert forall i :: 1 <= i < |s| ==> s[i] == s[1..][i - 1];
      } else {
        var k := SeparatorLength(s);
        SeparatorLengthSound(s);
        RunTailCharset(s[k + 1..]);
        forall i | 0 <= i < |s| ensures IsLowerAlnum(s[i]) || s[i] in "._-" {
          if i < k {
            assert s[..k][i] == s[i];
          } else if i > k {
            assert s[i] == s[k + 1..][i - k - 1];
          }
        }
      }
    }
  }

  // ---------------------------------------------------------------------------
  // check_name

  /** The repository part of a `check_name` argument. */
  function RepositoryOf(image: string): string {
    SplitImage(image, "latest").0
  }

  /** The tag part of a `check_name` argument, `latest` when none is given. */
  function TagOf(image: string): string {
    SplitImage(image, "latest").1
  }

  /** The `/`-separated components of the repository part. */
  function ComponentsOf(image: string): seq<string> {
    Split(RepositoryOf(image), '/')
  }

  /** `check_name` with both patterns matching the whole text. */
  predicate CheckName(image: string) {
    |image| < 256 && |TagOf(image)| < 129 && TagMatch(TagOf(image)) &&
    forall i :: 0 <= i < |ComponentsOf(image)| ==> ComponentMatch(ComponentsOf(image)[i])
  }

  /**
    What `check_name` accepts: a name shorter than 256 characters whose tag
    (the text after the first colon, `latest` when there is none) has 1 to 128
    characters, starts with `[a-zA-Z0-9_]` and continues with `[a-zA-Z0-9_.-]`,
    and whose `/`-separated repository components all have component shape.
  */
  lemma CheckNameIff(image: string)
    ensures CheckName(image) <==>
              && |image| < 256
              && 1 <= |TagOf(image)| <= 128
              && IsTagHead(TagOf(image)[0])
              && (forall i :: 1 <= i < |TagOf(image)| ==> IsTagChar(TagOf(image)[i]))
              && (forall i :: 0 <= i < |ComponentsOf(image)| ==> ComponentShape(ComponentsOf(image)[i]))
  {
    var components := ComponentsOf(image);
    forall i | 0 <= i < |components| ensures ComponentMatch(components[i]) <==> ComponentShape(components[i]) {
      ComponentMatchIffShape(components[i]);
    }
  }

  /** A tag starting with `.` or `-`, and an empty tag (`repo:`), are rejected. */
  lemma RejectsBadTagStart(image: string)
    requires ':' in image
    requires TagOf(image) == [] || TagOf(image)[0] == '.' || TagOf(image)[0] == '-'
    ensures !CheckName(image)
  {
  }

  /**
    An empty repository, and a repository with a leading, trailing or doubled
    slash, are rejected: they have an empty component.
  */
  lemma RejectsEmptyComponent(image: string)
    requires var repo := RepositoryOf(image);
             repo == [] || repo[0] == '/' || repo[|repo| - 1] == '/' ||
             exists i :: 0 <= i < |repo| - 1 && repo[i] == '/' && repo[i + 1] == '/'
    ensures !CheckName(image)
  {
    var repo := RepositoryOf(image);
    var components := ComponentsOf(image);
    if repo == [] {
      assert components[0] == [];
    } else if repo[0] == '/' {
      LeadingSeparator(repo, '/');
    } else {
      InnerEmptyPiece(repo, '/');
    }
  }

  /**
    The repository part of an accepted name holds only lowercase letters,
    digits, `.`, `_`, `-` and `/`: no uppercase letter, no colon, no newline.
  */
  lemma AcceptedRepositoryCharset(image: string, c: char)
    requires CheckName(image)
    requires c in RepositoryOf(image)
    ensures IsLowerAlnum(c) || c in "._-/"
  {
    var repo := RepositoryOf(image);
    var components := ComponentsOf(image);
    if c != '/' {
      JoinCharsInPieces(components, '/', c);
      var i :| 0 <= i < |components| && c in components[i];
      var p := components[i];
      RunTailCharset(p[1..]);
      var n :| 0 <= n < |p| && p[n] == c;
      if n > 0 { assert p[1..][n - 1] == c; }
    }
  }

  // ---------------------------------------------------------------------------
  // check_name as written: Python's `$` also matches before a final newline

  /** `re.match('[a-zA-Z0-9_][a-zA-Z0-9_.-]*$', tag)`. */
  predicate TagMatchAsWritten(tag: string) {
    TagMatch(tag) || (|tag| > 0 && tag[|tag| - 1] == '\n' && TagMatch(tag[..|tag| - 1]))
  }

  /** `re.match('[a-z0-9]+(?:(?:[._]|__|[-]*)[a-z0-9]+)*$', path)`. */
  predicate ComponentMatchAsWritten(p: string) {
    ComponentMatch(p) || (|p| > 0 && p[|p| - 1] == '\n' && ComponentMatch(p[..|p| - 1]))
  }

  /** `check_name` as the source evaluates it. */
  predicate CheckNameAsWritten(image: string) {
    |image| < 256 && |TagOf(image)| < 129 && TagMatchAsWritten(TagOf(image)) &&
    forall i :: 0 <= i < |ComponentsOf(image)| ==> ComponentMatchAsWritten(ComponentsOf(image)[i])
  }

  /** `app\n` passes the source's check although a newline is no repository character. */
  lemma TrailingNewlineAccepted()
    ensures CheckNameAsWritten("app\n")
    ensures !CheckName("app\n")
  {
    var image := "app\n";
    assert RepositoryOf(image) == image && TagOf(image) == "latest";
    SplitFree(image, '/');
    assert Split(image, '/') == [image];
    assert image[..|image| - 1] == "app";
    assert RunTail("pp") by {
      assert "pp"[1..] == "p";
      assert "p"[1..] == [];
    }
    assert "app"[1..] == "pp";
    assert ComponentMatch("app");
    assert !ComponentMatch(image) by {
      ComponentMatchIffShape(image);
    }
    assert ComponentsOf(image)[0] == image;
  }

  /** Without a newline in the name, the source's check and the full match agree. */
  lemma AsWrittenAgreesWithoutNewline(image: string)
    requires '\n' !in image
    ensures CheckNameAsWritten(image) == CheckName(image)
  {
    var parts := SplitImage(image, "latest");
    var components := ComponentsOf(image);
    if ':' in image {
      assert '\n' !in parts.1 && '\n' !in parts.0;
    }
    assert '\n' !in parts.1 ==> TagMatchAsWritten(parts.1) == TagMatch(parts.1) by {
      if '\n' !in parts.1 && |parts.1| > 0 {
        assert parts.1[|parts.1| - 1] in parts.1;
      }
    }
    forall i | 0 <= i < |components|
      ensures ComponentMatchAsWritten(components[i]) == ComponentMatch(components[i])
    {
      var p := components[i];
      if |p| > 0 && p[|p| - 1] == '\n' {
        assert '\n' in p;
        PieceCharsInJoin(components, '/', i, '\n');
      }
    }
  }
}
