/** tools/split_paths_by_spaces.py: every way to read a space-separated variable as a list of paths. */
module SplitPaths {

  type Text = string

  const SPACE: char := ' '

  ghost predicate SpaceFree(s: Text) {
    SPACE !in s
  }

  /** The paths, with single spaces between them. */
  function Join(paths: seq<Text>): Text {
    if paths == [] then []
    else if |paths| == 1 then paths[0]
    else paths[0] + [SPACE] + Join(paths[1..])
  }

  /** The text up to the first space. */
  function Word(s: Text): (w: Text)
    ensures w <= s && SpaceFree(w)
    ensures |w| < |s| ==> s[|w|] == SPACE
  {
    if s == [] || s[0] == SPACE then [] else [s[0]] + Word(s[1..])
  }

  /** The text, cut at every space. */
  function Parts(s: Text): (parts: seq<Text>)
    ensures parts != []
    decreases |s|
  {
    var w := Word(s);
    if |w| == |s| then [w] else [w] + Parts(s[|w| + 1..])
  }

  lemma {:induction false} PartsJoin(s: Text)
    ensures Join(Parts(s)) == s
    ensures forall p | p in Parts(s) :: SpaceFree(p)
    decreases |s|
  {
    var w := Word(s);
    if |w| < |s| {
      PartsJoin(s[|w| + 1..]);
      assert Parts(s)[1..] == Parts(s[|w| + 1..]);
      assert s == w + [SPACE] + s[|w| + 1..];
    }
  }

  function Pow2(n: nat): (p: nat)
    ensures p > 0
  {
    if n == 0 then 1 else 2 * Pow2(n - 1)
  }

  /** `first` in front of the first path, with a space between. */
  function Attach(first: Text, paths: seq<Text>): (r: seq<Text>)
    requires paths != []
    ensures |r| == |paths|
  {
    [first + [SPACE] + paths[0]] + paths[1..]
  }

  /** The way that belongs to a mask: bit i decides whether the i-th space separates. */
  function Way(parts: seq<Text>, n: nat): (paths: seq<Text>)
    requires parts != []
    ensures paths != []
  {
    if |parts| == 1 then parts
    else if n % 2 == 1 then [parts[0]] + Way(parts[1..], n / 2)
    else Attach(parts[0], Way(parts[1..], n / 2))
  }

  lemma JoinAttach(first: Text, paths: seq<Text>)
    requires paths != []
    ensures Join(Attach(first, paths)) == first + [SPACE] + Join(paths)
  {
    assert Attach(first, paths)[1..] == paths[1..];
    if |paths| > 1 {
      assert Join(paths) == paths[0] + [SPACE] + Join(paths[1..]);
    }
  }

  lemma {:induction false} WayJoins(parts: seq<Text>, n: nat)
    requires parts != []
    ensures Join(Way(parts, n)) == Join(parts)
  {
    if |parts| > 1 {
      var rest := Way(parts[1..], n / 2);
      WayJoins(parts[1..], n / 2);
      JoinAttach(parts[0], rest);
      assert ([parts[0]] + rest)[1..] == rest;
    }
  }

  /** Two masks never give the same list, so none is counted twice. */
  lemma {:induction false} WaysDiffer(parts: seq<Text>, m: nat, n: nat)
    requires parts != [] && forall p | p in parts :: SpaceFree(p)
    requires m < Pow2(|parts| - 1) && n < Pow2(|parts| - 1)
    requires Way(parts, m) == Way(parts, n)
    ensures m == n
  {
    if |parts| > 1 {
      var a, b := Way(parts[1..], m / 2), Way(parts[1..], n / 2);
      assert SpaceFree(parts[0]);
      assert m % 2 == 0 ==> Way(parts, m)[0][|parts[0]|] == SPACE;
      assert n % 2 == 0 ==> Way(parts, n)[0][|parts[0]|] == SPACE;
      if m % 2 == 1 {
        assert a == Way(parts, m)[1..] && b == Way(parts, n)[1..];
      } else {
        DetachAttach(parts[0], a);
        DetachAttach(parts[0], b);
      }
      WaysDiffer(parts[1..], m / 2, n / 2);
    }
  }

  lemma DetachAttach(first: Text, paths: seq<Text>)
    requires paths != []
    ensures var r := Attach(first, paths);
            paths == [r[0][|first| + 1..]] + r[1..]
  {
  }

  /** The mask of a list of paths: a space inside a path is a 0, one between two paths a 1. */
  ghost function Mask(paths: seq<Text>): nat
    requires paths != []
    decreases |Join(paths)|
  {
    var w := Word(paths[0]);
    if |w| < |paths[0]| then
      var shorter := [paths[0][|w| + 1..]] + paths[1..];
      Detached(paths, |w|);
      2 * Mask(shorter)
    else if |paths| == 1 then 0
    else 2 * Mask(paths[1..]) + 1
  }

  lemma Detached(paths: seq<Text>, k: nat)
    requires paths != [] && k < |paths[0]| && paths[0][k] == SPACE
    ensures var shorter := [paths[0][k + 1..]] + paths[1..];
            paths == Attach(paths[0][..k], shorter) && Join(paths) == paths[0][..k] + [SPACE] + Join(shorter)
  {
    var shorter := [paths[0][k + 1..]] + paths[1..];
    assert paths[0] == paths[0][..k] + [SPACE] + shorter[0];
    assert shorter[1..] == paths[1..];
    JoinAttach(paths[0][..k], shorter);
  }

  lemma {:induction false} WordIs(s: Text, k: nat)
    requires k <= |s| && SpaceFree(s[..k]) && (k < |s| ==> s[k] == SPACE)
    ensures Word(s) == s[..k]
  {
    if k > 0 {
      assert s[0] in s[..k] && s[1..][..k - 1] == s[..k][1..];
      WordIs(s[1..], k - 1);
    }
  }

  lemma PartsOf(w: Text, rest: Text)
    requires SpaceFree(w)
    ensures Parts(w + [SPACE] + rest) == [w] + Parts(rest)
  {
    assert (w + [SPACE] + rest)[..|w|] == w;
    WordIs(w + [SPACE] + rest, |w|);
    assert (w + [SPACE] + rest)[|w| + 1..] == rest;
  }

  lemma PartsOfWord(w: Text)
    requires SpaceFree(w)
    ensures Parts(w) == [w]
  {
    assert w[..|w|] == w;
    WordIs(w, |w|);
  }

  lemma OneMorePart(w: Text, parts: seq<Text>, n: nat)
    requires parts != []
    ensures Way([w] + parts, 2 * n + 1) == [w] + Way(parts, n)
    ensures Way([w] + parts, 2 * n) == Attach(w, Way(parts, n))
    ensures n < Pow2(|parts| - 1) ==> 2 * n + 1 < Pow2(|[w] + parts| - 1)
  {
    assert ([w] + parts)[1..] == parts;
    assert (2 * n + 1) % 2 == 1 && (2 * n + 1) / 2 == n && (2 * n) % 2 == 0 && (2 * n) / 2 == n;
  }

  ghost predicate Arises(paths: seq<Text>)
    requires paths != []
  {
    Mask(paths) < Pow2(|Parts(Join(paths))| - 1) && Way(Parts(Join(paths)), Mask(paths)) == paths
  }

  lemma ArisesInside(paths: seq<Text>, shorter: seq<Text>)
    requires paths != [] && |Word(paths[0])| < |paths[0]|
    requires shorter == [paths[0][|Word(paths[0])| + 1..]] + paths[1..] && Arises(shorter)
    ensures Arises(paths)
  {
    var w := Word(paths[0]);
    WordFits(paths[0]);
    Detached(paths, |w|);
    MaskInside(paths, shorter);
    hide *;
    LongerAttached(paths, w, shorter, Mask(shorter));
  }

  lemma ArisesBetween(paths: seq<Text>, rest: seq<Text>)
    requires |paths| > 1 && |Word(paths[0])| == |paths[0]| && rest == paths[1..] && Arises(rest)
    ensures Arises(paths)
  {
    var w := Word(paths[0]);
    WordFits(paths[0]);
    MaskBetween(paths);
    hide *;
    LongerSplit(paths, w, rest, Mask(rest));
  }

  /** One more word in front of what a mask gives, split off. */
  lemma LongerSplit(paths: seq<Text>, w: Text, rest: seq<Text>, m: nat)
    requires rest != [] && SpaceFree(w) && Arises(rest) && m == Mask(rest)
    requires Join(paths) == w + [SPACE] + Join(rest) && paths == [w] + rest && Mask(paths) == 2 * m + 1
    ensures Arises(paths)
  {
    hide *;
    PartsOf(w, Join(rest));
    ArisesIs(rest, Parts(Join(rest)), m);
    LongerWay(w, Parts(Join(rest)), m);
    ArisesIf(paths, [w] + Parts(Join(rest)), Mask(paths));
  }

  /** One more word in front of what a mask gives, attached. */
  lemma LongerAttached(paths: seq<Text>, w: Text, rest: seq<Text>, m: nat)
    requires paths != [] && rest != [] && SpaceFree(w) && Arises(rest) && m == Mask(rest)
    requires Join(paths) == w + [SPACE] + Join(rest) && paths == Attach(w, rest) && Mask(paths) == 2 * m
    ensures Arises(paths)
  {
    hide *;
    PartsOf(w, Join(rest));
    ArisesIs(rest, Parts(Join(rest)), m);
    LongerWay(w, Parts(Join(rest)), m);
    ArisesIf(paths, [w] + Parts(Join(rest)), Mask(paths));
  }

  lemma ArisesIs(paths: seq<Text>, parts: seq<Text>, m: nat)
    requires paths != [] && Arises(paths) && parts == Parts(Join(paths)) && m == Mask(paths)
    ensures m < Pow2(|parts| - 1) && Way(parts, m) == paths
  {
  }

  lemma ArisesIf(paths: seq<Text>, parts: seq<Text>, m: nat)
    requires paths != [] && parts != [] && parts == Parts(Join(paths)) && m == Mask(paths)
    requires m < Pow2(|parts| - 1) && Way(parts, m) == paths
    ensures Arises(paths)
  {
  }

  lemma LongerWay(w: Text, parts: seq<Text>, m: nat)
    requires parts != [] && m < Pow2(|parts| - 1)
    ensures [w] + parts != []
    ensures 2 * m + 1 < Pow2(|[w] + parts| - 1) && 2 * m < Pow2(|[w] + parts| - 1)
    ensures Way([w] + parts, 2 * m + 1) == [w] + Way(parts, m)
    ensures Way([w] + parts, 2 * m) == Attach(w, Way(parts, m))
  {
    hide Way, Pow2, Attach;
    OneMorePart(w, parts, m);
  }

  lemma ArisesAlone(paths: seq<Text>)
    requires |paths| == 1 && |Word(paths[0])| == |paths[0]|
    ensures Arises(paths)
  {
    WordFits(paths[0]);
    PartsOfWord(paths[0]);
    WayOfOne(paths[0], 0);
    OneWay();
  }

  /** Every list of paths that joins to the text is the way of some mask in the range. */
  lemma {:induction false} EveryWayArises(paths: seq<Text>)
    requires paths != []
    ensures Mask(paths) < Pow2(|Parts(Join(paths))| - 1)
    ensures Way(Parts(Join(paths)), Mask(paths)) == paths
    decreases |Join(paths)|
  {
    hide Mask, Way, Parts, Pow2;
    if |Word(paths[0])| < |paths[0]| {
      var shorter := [paths[0][|Word(paths[0])| + 1..]] + paths[1..];
      MaskInside(paths, shorter);
      EveryWayArises(shorter);
      ArisesInside(paths, shorter);
    } else if |paths| > 1 {
      MaskBetween(paths);
      EveryWayArises(paths[1..]);
      ArisesBetween(paths, paths[1..]);
    } else {
      ArisesAlone(paths);
    }
  }

  lemma OneWay()
    ensures Pow2(0) == 1
  {
  }

  lemma WordFits(s: Text)
    ensures Word(s) == s[..|Word(s)|] && (|Word(s)| == |s| ==> Word(s) == s)
  {
    assert s[..|s|] == s;
  }

  lemma MaskInside(paths: seq<Text>, shorter: seq<Text>)
    requires paths != [] && |Word(paths[0])| < |paths[0]|
    requires shorter == [paths[0][|Word(paths[0])| + 1..]] + paths[1..]
    ensures Mask(paths) == 2 * Mask(shorter) && |Join(shorter)| < |Join(paths)|
  {
    Detached(paths, |Word(paths[0])|);
  }

  lemma MaskBetween(paths: seq<Text>)
    requires |paths| > 1 && |Word(paths[0])| == |paths[0]|
    ensures Mask(paths) == 2 * Mask(paths[1..]) + 1 && |Join(paths[1..])| < |Join(paths)|
    ensures Join(paths) == paths[0] + [SPACE] + Join(paths[1..]) && paths == [paths[0]] + paths[1..]
  {
  }

  lemma WayOfOne(c: Text, n: nat)
    ensures Way([c], n) == [c]
  {
  }

  lemma WayNext(c: Text, part: Text, rest: seq<Text>, n: nat)
    ensures n % 2 == 1 ==> Way([c, part] + rest, n) == [c] + Way([part] + rest, n / 2)
    ensures n % 2 == 0 ==> Way([c, part] + rest, n) == Way([c + [SPACE] + part] + rest, n / 2)
  {
    var m := n / 2;
    assert ([c, part] + rest)[1..] == [part] + rest;
    if rest != [] {
      assert ([part] + rest)[1..] == rest == ([c + [SPACE] + part] + rest)[1..];
      assert c + [SPACE] + part + [SPACE] + Way(rest, m / 2)[0] == c + [SPACE] + (part + [SPACE] + Way(rest, m / 2)[0]);
    }
  }

  lemma {:induction false} JoinEnd(texts: seq<Text>, part: Text)
    requires texts != []
    ensures Join(texts + [part]) == Join(texts) + [SPACE] + part
  {
    if |texts| > 1 {
      JoinEnd(texts[1..], part);
      assert (texts + [part])[1..] == texts[1..] + [part];
    } else {
      assert (texts + [part])[1..] == [part];
    }
  }

  method SelectiveJoin(parts: seq<Text>, mask: nat) returns (result: seq<Text>)
    requires parts != []
    ensures result == Way(parts, mask)
  {
    hide Way;
    result := [];
    var n: nat := mask;
    var concatenated := [parts[0]];
    assert parts == [Join(concatenated)] + parts[1..];
    for i := 1 to |parts|
      invariant concatenated != []
      invariant result + Way([Join(concatenated)] + parts[i..], n) == Way(parts, mask)
    {
      var part := parts[i];
      var c := Join(concatenated);
      assert [c] + parts[i..] == [c, part] + parts[i + 1..];
      WayNext(c, part, parts[i + 1..], n);
      if n % 2 == 1 {
        result := result + [c];
        concatenated := [part];
      } else {
        JoinEnd(concatenated, part);
        concatenated := concatenated + [part];
      }
      n := n / 2;
    }
    WayOfOne(Join(concatenated), n);
    assert [Join(concatenated)] + parts[|parts|..] == [Join(concatenated)];
    result := result + [Join(concatenated)];
  }

  // ----- the choice -----

  function NonEmpty(paths: seq<Text>): seq<Text> {
    if paths == [] then [] else (if paths[0] == [] then [] else [paths[0]]) + NonEmpty(paths[1..])
  }

  lemma Regroup(a: seq<Text>, b: seq<Text>, c: seq<Text>, d: seq<Text>)
    ensures (a + b) + c + d == a + (b + c + d)
  {
  }

  lemma NonEmptyFirst(path: Text, after: seq<Text>)
    ensures NonEmpty([path] + after) == (if |path| == 0 then [] else [path]) + NonEmpty(after)
  {
    assert ([path] + after)[1..] == after;
  }

  /** Empty members are left out one by one, and the others keep their order. */
  lemma {:induction false} NonEmptyOn(before: seq<Text>, path: Text, after: seq<Text>)
    ensures NonEmpty([]) == []
    ensures NonEmpty(before + [path] + after) == NonEmpty(before) + (if |path| == 0 then [] else [path]) + NonEmpty(after)
  {
    if before == [] {
      NonEmptyFirst(path, after);
      assert before + [path] + after == [path] + after;
    } else {
      hide *;
      var first, rest := before[0], before[1..];
      assert before == [first] + rest;
      NonEmptyFirst(first, rest);
      NonEmptyFirst(first, rest + [path] + after);
      NonEmptyOn(rest, path, after);
      Regroup([first], rest, [path], after);
      Regroup(if |first| == 0 then [] else [first], NonEmpty(rest), if |path| == 0 then [] else [path], NonEmpty(after));
    }
  }

  predicate AllExist(paths: seq<Text>, pathExists: Text -> bool) {
    forall p | p in paths :: p == [] || pathExists(p)
  }

  /** A reading of the text: paths that join to it with single spaces, the non-empty ones existing. */
  ghost predicate Reading(paths: seq<Text>, src: Text, pathExists: Text -> bool) {
    paths != [] && Join(paths) == src && AllExist(paths, pathExists)
  }

  datatype Outcome = Split(paths: seq<Text>) | NotFound | Ambiguous

  function LStrip(s: Text): (t: Text)
    ensures |t| <= |s| && t == s[|s| - |t|..] && (t != [] ==> t[0] != SPACE)
    ensures forall i | 0 <= i < |s| - |t| :: s[i] == SPACE
  {
    if s != [] && s[0] == SPACE then
      var t := LStrip(s[1..]);
      assert s[1..][|s| - 1 - |t|..] == s[|s| - |t|..];
      assert forall i | 0 < i < |s| - |t| :: s[i] == s[1..][i - 1];
      t
    else s
  }

  function RStrip(s: Text): (t: Text)
    ensures t <= s && (t != [] ==> t[|t| - 1] != SPACE)
    ensures forall i | |t| <= i < |s| :: s[i] == SPACE
  {
    if s != [] && s[|s| - 1] == SPACE then RStrip(s[..|s| - 1]) else s
  }

  /** The masks below `n` whose way is a reading. */
  ghost predicate ValidMask(parts: seq<Text>, n: nat, pathExists: Text -> bool)
    requires parts != []
  {
    AllExist(Way(parts, n), pathExists)
  }

  lemma ReadingIffMask(src: Text, paths: seq<Text>, pathExists: Text -> bool)
    ensures Reading(paths, src, pathExists)
            <==> exists n: nat | n < Pow2(|Parts(src)| - 1) ::
                   ValidMask(Parts(src), n, pathExists) && Way(Parts(src), n) == paths
  {
    if Reading(paths, src, pathExists) {
      EveryWayArises(paths);
      assert ValidMask(Parts(src), Mask(paths), pathExists);
    }
    forall n: nat | ValidMask(Parts(src), n, pathExists) && Way(Parts(src), n) == paths
      ensures Reading(paths, src, pathExists)
    {
      WayJoins(Parts(src), n);
      PartsJoin(src);
    }
  }

  method Candidates(src: Text, pathExists: Text -> bool) returns (valid: seq<seq<Text>>, ghost masks: seq<nat>)
    ensures |valid| == |masks|
    ensures forall k | 0 <= k < |masks| ::
              ValidMask(Parts(src), masks[k], pathExists) && masks[k] < Pow2(|Parts(src)| - 1)
              && valid[k] == NonEmpty(Way(Parts(src), masks[k]))
    ensures forall j, k | 0 <= j < k < |masks| :: masks[j] < masks[k]
    ensures forall m: nat | m < Pow2(|Parts(src)| - 1) && ValidMask(Parts(src), m, pathExists) :: m in masks
  {
    hide Way, Parts, NonEmpty;
    var parts := Parts(src);
    valid, masks := [], [];
    for n := 0 to Pow2(|parts| - 1)
      invariant |valid| == |masks|
      invariant forall k | 0 <= k < |masks| ::
                  ValidMask(parts, masks[k], pathExists) && masks[k] < n && valid[k] == NonEmpty(Way(parts, masks[k]))
      invariant forall j, k | 0 <= j < k < |masks| :: masks[j] < masks[k]
      invariant forall m: nat | m < n && ValidMask(parts, m, pathExists) :: m in masks
    {
      var way := SelectiveJoin(parts, n);
      if AllExist(way, pathExists) {
        valid, masks := valid + [NonEmpty(way)], masks + [n];
      }
    }
  }

  lemma ChoiceIs(src: Text, pathExists: Text -> bool, masks: seq<nat>)
    requires forall k | 0 <= k < |masks| ::
               ValidMask(Parts(src), masks[k], pathExists) && masks[k] < Pow2(|Parts(src)| - 1)
    requires forall j, k | 0 <= j < k < |masks| :: masks[j] < masks[k]
    requires forall m: nat | m < Pow2(|Parts(src)| - 1) && ValidMask(Parts(src), m, pathExists) :: m in masks
    ensures |masks| == 0 <==> !exists paths :: Reading(paths, src, pathExists)
    ensures |masks| > 0 ==> Reading(Way(Parts(src), masks[0]), src, pathExists)
    ensures |masks| > 1 <==> exists a, b :: Reading(a, src, pathExists) && Reading(b, src, pathExists) && a != b
  {
    hide Reading, ValidMask, Way, Parts, Pow2;
    var parts := Parts(src);
    forall k | 0 <= k < |masks| ensures Reading(Way(parts, masks[k]), src, pathExists) {
      ReadingIffMask(src, Way(parts, masks[k]), pathExists);
    }
    forall paths | Reading(paths, src, pathExists)
      ensures exists k :: 0 <= k < |masks| && Way(parts, masks[k]) == paths
    {
      ReadingIffMask(src, paths, pathExists);
      var n: nat :| n < Pow2(|parts| - 1) && ValidMask(parts, n, pathExists) && Way(parts, n) == paths;
    }
    if |masks| > 1 {
      PartsJoin(src);
      if Way(parts, masks[0]) == Way(parts, masks[1]) {
        WaysDiffer(parts, masks[0], masks[1]);
      }
    }
  }

  ghost predicate Chosen(out: Outcome, t: Text, pathExists: Text -> bool) {
    && (out == NotFound <==> !exists paths :: Reading(paths, t, pathExists))
    && (out == Ambiguous <==> exists a, b :: Reading(a, t, pathExists) && Reading(b, t, pathExists) && a != b)
    && (out.Split? ==> exists paths :: Reading(paths, t, pathExists) && out.paths == NonEmpty(paths))
  }

  method Choose(t: Text, pathExists: Text -> bool) returns (out: Outcome)
    ensures Chosen(out, t, pathExists)
  {
    hide Reading, ValidMask, Way, Parts, Pow2, NonEmpty;
    var valid, masks := Candidates(t, pathExists);
    ChoiceIs(t, pathExists, masks);
    if |valid| == 1 {
      out := Split(valid[0]);
    } else if |valid| == 0 {
      out := NotFound;
    } else {
      out := Ambiguous;
    }
  }

  /** A variable without spaces is taken as it is. Otherwise a split is reported exactly if there is one
      and only one reading of the trimmed text, and it is that reading without its empty members. */
  method SplitPathsBySpaces(src: Text, pathExists: Text -> bool) returns (out: Outcome)
    ensures SPACE !in src ==> out == Split([src])
    ensures SPACE in src ==> Chosen(out, RStrip(LStrip(src)), pathExists)
  {
    if SPACE !in src {
      return Split([src]);
    }
    out := Choose(RStrip(LStrip(src)), pathExists);
  }
}
