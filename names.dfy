/**
  Domain names as the DNS library holds them: a sequence of labels from the
  leftmost (most specific) one to the rightmost. An absolute name ends with the
  empty root label; a relative name does not.
 */
module Names {

  type Label = string

  type Name = seq<Label>

  /** The root name `.`, made of the root label alone. */
  const Root: Name := [""]

  predicate IsAbsolute(n: Name) {
    |n| > 0 && n[|n| - 1] == ""
  }

  /** A name as the DNS library builds it: absolute, and the root label is its only empty label. */
  predicate WellFormed(n: Name) {
    IsAbsolute(n) && forall j :: 0 <= j < |n| - 1 ==> n[j] != ""
  }

  /**
    The slice `n[-k:]` for `k >= 1`: the rightmost `k` labels, or the whole name
    when it has fewer (slicing clamps).
   */
  function Last(n: Name, k: nat): (r: Name)
    ensures |r| == if k <= |n| then k else |n|
    ensures r == n[|n| - |r|..]
  {
    if k <= |n| then n[|n| - k..] else n
  }

  /** `o` is a suffix of `n`, label by label (dnspython `n.is_subdomain(o)`). */
  predicate IsSubdomain(n: Name, o: Name) {
    |o| <= |n| && n[|n| - |o|..] == o
  }

  /** A shorter cut of a name is an ancestor of a longer one. */
  lemma LastNested(n: Name, i: nat, j: nat)
    requires i <= j
    ensures IsSubdomain(Last(n, j), Last(n, i))
  {
    var a, b := Last(n, j), Last(n, i);
    assert b == n[|n| - |b|..];
    assert a[|a| - |b|..] == n[|n| - |b|..];
  }

  /** Two adjacent slices of a sequence make up the slice they span. */
  /** A sequence whose head is `x` and whose tail agrees with `s` pointwise is `[x] + s`. */
  lemma ConsOf<T>(x: T, s: seq<T>, t: seq<T>)
    requires |t| == |s| + 1 && t[0] == x
    requires forall k :: 1 <= k < |t| ==> t[k] == s[k - 1]
    ensures t == [x] + s
  {
    assert forall k :: 0 <= k < |t| ==> t[k] == ([x] + s)[k];
  }

  lemma SliceJoin<T>(s: seq<T>, i: nat, j: nat)
    requires i <= j <= |s|
    ensures s[..j][i..] + s[j..] == s[i..]
  {
    assert s[..j][i..] == s[i..j];
  }

  /** `a` is an ancestor of `n` strictly above it. */
  ghost predicate IsProperAncestor(a: Name, n: Name) {
    |a| < |n| && n[|n| - |a|..] == a
  }

  /** dnspython `n.relativize(o)`: drop the suffix `o` when `n` is under it. */
  function Relativize(n: Name, o: Name): (r: Name)
    ensures IsSubdomain(n, o) ==> r + o == n
    ensures !IsSubdomain(n, o) ==> r == n
  {
    if IsSubdomain(n, o) then n[..|n| - |o|] else n
  }

  /** dnspython `n.derelativize(o)`: append `o` to a relative name. */
  function Derelativize(n: Name, o: Name): Name {
    if IsAbsolute(n) then n else n + o
  }

  /** Putting a name under an absolute origin makes it absolute. */
  lemma DerelativizedIsAbsolute(n: Name, o: Name)
    ensures IsAbsolute(o) ==> IsAbsolute(Derelativize(n, o))
  {
    if IsAbsolute(o) && !IsAbsolute(n) {
      assert (n + o)[|n + o| - 1] == o[|o| - 1];
    }
  }

  /** Labels joined with a separator. */
  function Join(labels: seq<Label>, sep: string): string {
    if |labels| == 0 then ""
    else if |labels| == 1 then labels[0]
    else labels[0] + sep + Join(labels[1..], sep)
  }

  /**
    dnspython `to_text()`: `@` for the empty relative name, `.` for the root,
    otherwise the labels joined with dots (an absolute name so ends with a dot).
    Escaping of special characters is not modelled.
   */
  function ToText(n: Name): string {
    if n == [] then "@"
    else if n == Root then "."
    else Join(n, ".")
  }

  /** Python `s.rstrip('.')`. */
  function RStripDots(s: string): (r: string)
    ensures |r| <= |s| && r == s[..|r|]
    ensures r == [] || r[|r| - 1] != '.'
    ensures forall j :: |r| <= j < |s| ==> s[j] == '.'
  {
    if s == [] || s[|s| - 1] != '.' then s else RStripDots(s[..|s| - 1])
  }

  /** Python `s.lstrip(c)`. */
  function LStripChar(s: string, c: char): (r: string)
    ensures |r| <= |s| && r == s[|s| - |r|..]
    ensures r == [] || r[0] != c
    ensures forall j :: 0 <= j < |s| - |r| ==> s[j] == c
  {
    if s == [] || s[0] != c then s else LStripChar(s[1..], c)
  }

  /** The pieces of `s` between the dots (Python `s.split('.')`). */
  function SplitDots(s: string): (r: seq<string>)
    ensures |r| >= 1
    ensures forall j :: 0 <= j < |r| ==> '.' !in r[j]
  {
    if s == [] then [""]
    else if s[0] == '.' then [""] + SplitDots(s[1..])
    else var rest := SplitDots(s[1..]); [[s[0]] + rest[0]] + rest[1..]
  }

  /** Splitting at the dots and joining with dots gives the text back. */
  lemma {:induction false} SplitJoin(s: string)
    ensures Join(SplitDots(s), ".") == s
  {
    if s != [] {
      SplitJoin(s[1..]);
      var rest := SplitDots(s[1..]);
      if s[0] == '.' {
        assert Join([""] + rest, ".") == "" + "." + Join(rest, ".");
      } else if |rest| > 1 {
        assert ([[s[0]] + rest[0]] + rest[1..])[1..] == rest[1..];
        assert Join(rest, ".") == rest[0] + "." + Join(rest[1..], ".");
      }
    }
  }

  /**
    `dns.name.from_text(s)` with the root as origin: the dot-separated labels,
    made absolute by appending the root label unless `s` already ends with a
    dot; `.` is the root and `@` the empty name made absolute.
   */
  function FromText(s: string): (n: Name)
    ensures IsAbsolute(n)
  {
    if s == "." || s == "@" then Root
    else
      var pieces := SplitDots(s);
      if pieces[|pieces| - 1] == "" then pieces else pieces + [""]
  }

  /** The presentation form of a name read from text is `.` exactly when the name is the root. */
  lemma RootText(s: string)
    ensures ToText(FromText(s)) == "." <==> FromText(s) == Root
  {
    var n := FromText(s);
    SplitJoin(s);
    if |n| >= 2 {
      assert ToText(n) == n[0] + "." + Join(n[1..], ".");
      if |n| >= 3 {
        assert Join(n[1..], ".") == n[1] + "." + Join(n[2..], ".");
      }
    }
  }

  /** A label the presentation form writes as is: not empty, no dot. */
  predicate PlainLabel(l: Label) {
    l != "" && '.' !in l
  }

  /** An absolute name below the root whose labels are all plain and which does not read back as `@`. */
  predicate Plain(n: Name) {
    && IsAbsolute(n) && |n| >= 2 && n[..|n| - 1] != ["@"]
    && forall j :: 0 <= j < |n| - 1 ==> PlainLabel(n[j])
  }

  /** A label without dots reads as a single piece. */
  lemma {:induction false} SplitLabel(l: Label)
    requires '.' !in l
    ensures SplitDots(l) == [l]
  {
    if l != [] {
      assert '.' !in l[1..] by {
        assert forall j :: 0 <= j < |l| - 1 ==> l[1..][j] == l[j + 1];
      }
      SplitLabel(l[1..]);
      assert [l[0]] + l[1..] == l;
    }
  }

  /** A label without dots followed by a dot splits off as the first piece. */
  lemma {:induction false} SplitAfterLabel(l: Label, t: string)
    requires '.' !in l
    ensures SplitDots(l + "." + t) == [l] + SplitDots(t)
  {
    if l == [] {
      assert l + "." + t == ['.'] + t;
      assert (['.'] + t)[1..] == t;
    } else {
      assert '.' !in l[1..] by {
        assert forall j :: 0 <= j < |l| - 1 ==> l[1..][j] == l[j + 1];
      }
      SplitAfterLabel(l[1..], t);
      assert (l + "." + t)[1..] == l[1..] + "." + t;
      assert (l + "." + t)[0] == l[0];
      assert [l[0]] + l[1..] == l;
    }
  }

  /** Joining labels without dots and splitting at the dots gives the labels back. */
  lemma {:induction false} JoinSplit(labels: seq<Label>)
    requires |labels| >= 1
    requires forall j :: 0 <= j < |labels| ==> '.' !in labels[j]
    ensures SplitDots(Join(labels, ".")) == labels
  {
    if |labels| == 1 {
      SplitLabel(labels[0]);
    } else {
      JoinSplit(labels[1..]);
      SplitAfterLabel(labels[0], Join(labels[1..], "."));
      assert [labels[0]] + labels[1..] == labels;
    }
  }

  /** The joined text ends with the last label. */
  lemma {:induction false} JoinLast(labels: seq<Label>, c: char)
    requires |labels| >= 1 && labels[|labels| - 1] != "" && labels[|labels| - 1][|labels[|labels| - 1]| - 1] == c
    ensures var t := Join(labels, "."); t != "" && t[|t| - 1] == c
  {
    if |labels| > 1 {
      JoinLast(labels[1..], c);
    }
  }

  /** Joining labels and then the root label adds the trailing dot. */
  lemma {:induction false} JoinRoot(labels: seq<Label>)
    requires |labels| >= 1
    ensures Join(labels + [""], ".") == Join(labels, ".") + "."
  {
    if |labels| > 1 {
      JoinRoot(labels[1..]);
      assert (labels + [""])[1..] == labels[1..] + [""];
    }
  }

  /** The list form of a plain name is its labels joined with dots. */
  lemma ListForm(n: Name)
    requires Plain(n)
    ensures RStripDots(ToText(n)) == Join(n[..|n| - 1], ".")
  {
    var ls := n[..|n| - 1];
    assert n == ls + [""];
    JoinRoot(ls);
    var last := ls[|ls| - 1];
    assert PlainLabel(last);
    JoinLast(ls, last[|last| - 1]);
    var t := Join(ls, ".");
    assert |t + "."| >= 2;
    assert (t + ".")[..|t + "."| - 1] == t;
  }

  /** Reading the list form of a plain name gives the name back. */
  lemma ListFormReads(n: Name)
    requires Plain(n)
    ensures FromText(RStripDots(ToText(n))) == n
  {
    ListForm(n);
    var ls := n[..|n| - 1];
    assert n == ls + [""];
    assert forall j :: 0 <= j < |ls| ==> PlainLabel(ls[j]);
    JoinSplit(ls);
    JoinedPlain(ls);
  }

  /** Plain labels, other than the lone `@`, join to a text that is neither `.` nor `@` and ends in a label character. */
  lemma JoinedPlain(ls: seq<Label>)
    requires |ls| >= 1 && ls != ["@"] && forall j :: 0 <= j < |ls| ==> PlainLabel(ls[j])
    ensures var t := Join(ls, "."); t != "." && t != "@" && t != "" && t[|t| - 1] != '.'
  {
    var last := ls[|ls| - 1];
    assert PlainLabel(last);
    JoinLast(ls, last[|last| - 1]);
    var t := Join(ls, ".");
    if |ls| == 1 {
      assert ls == [t];
    } else {
      assert t == ls[0] + "." + Join(ls[1..], ".");
      assert PlainLabel(ls[0]);
    }
  }

  /** Stripping leading characters of the text stops inside its first label, when that label is not all of them. */
  lemma {:induction false} LStripFirst(l: Label, t: string, c: char)
    requires LStripChar(l, c) != ""
    ensures LStripChar(l + t, c) == LStripChar(l, c) + t
  {
    assert l != [] && (l + t)[0] == l[0];
    if l[0] == c {
      assert (l + t)[1..] == l[1..] + t;
      LStripFirst(l[1..], t, c);
    }
  }
}
