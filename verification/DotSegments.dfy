/** Removal of the `.` and `..` segments of a path, in place. */
module DotSegments {

  // ----- Slashes -----

  /** The position of the first slash, or the length. */
  function FirstSlash(s: string): (k: nat)
    ensures k <= |s| && (forall j :: 0 <= j < k ==> s[j] != '/') && (k < |s| ==> s[k] == '/')
  {
    if s == "" || s[0] == '/' then 0 else 1 + FirstSlash(s[1..])
  }

  /** The position just after the last slash before `j`, or 0. */
  function AfterSlash(s: string, j: nat): (k: nat)
    requires j <= |s|
    ensures k <= j && (k > 0 ==> s[k - 1] == '/') && (forall i :: k <= i < j ==> s[i] != '/')
  {
    if j == 0 || s[j - 1] == '/' then j else AfterSlash(s, j - 1)
  }

  // ----- Section 5.2.4 of RFC 3986 -----

  /** The output without its last segment and the slash before it, if any. */
  function WithoutLast(output: string): string {
    var k := AfterSlash(output, |output|);
    if k > 0 then output[..k - 1] else ""
  }

  /** Where the first segment ends, with its slash in front, if any. */
  function FirstSegment(input: string): (k: nat)
    requires input != ""
    ensures 0 < k <= |input|
  {
    if input[0] == '/' then 1 + FirstSlash(input[1..]) else FirstSlash(input)
  }

  /** The rules A to E, from the input buffer to the output buffer. */
  function Rfc(input: string, output: string): string
    decreases |input|
  {
    if input == "" then output
    else if "../" <= input then Rfc(input[3..], output)
    else if "./" <= input then Rfc(input[2..], output)
    else if "/./" <= input then Rfc(input[2..], output)
    else if input == "/." then Rfc("/", output)
    else if "/../" <= input then Rfc(input[3..], WithoutLast(output))
    else if input == "/.." then Rfc("/", WithoutLast(output))
    else if input == "." || input == ".." then output
    else
      var k := FirstSegment(input);
      Rfc(input[k..], output + input[..k])
  }

  // ----- What the loop computes -----

  /** A `..` segment: back to after the slash before the last one, unless there is nothing to go back over. */
  function BackUp(out: string): string {
    if |out| > 1 then out[..AfterSlash(out, |out| - 1)] else out
  }

  /** One segment: the new output, where `slash` says whether a slash follows. */
  function Take(out: string, segment: string, slash: bool): string {
    if segment == ".." then BackUp(out)
    else if segment == "." then out
    else out + segment + if slash then "/" else ""
  }

  function Rest(rest: string): string {
    var k := FirstSlash(rest);
    if k < |rest| then rest[k + 1..] else ""
  }

  /** The new path for output `out` so far and the rest of the path. */
  function Walk(out: string, rest: string): string
    decreases |rest|
  {
    if rest == "" then out
    else
      var k := FirstSlash(rest);
      Walk(Take(out, rest[..k], k < |rest|), Rest(rest))
  }

  lemma OneDot(rest: string)
    requires rest != ""
    ensures rest[..FirstSlash(rest)] == "." <==> rest[0] == '.' && (|rest| == 1 || rest[1] == '/')
  {
    var k := FirstSlash(rest);
    if rest[..k] == "." {
      assert rest[..k][0] == '.';
    }
  }

  lemma TwoDots(rest: string)
    requires rest != ""
    ensures rest[..FirstSlash(rest)] == ".." <==>
            |rest| >= 2 && rest[0] == '.' && rest[1] == '.' && (|rest| == 2 || rest[2] == '/')
  {
    var k := FirstSlash(rest);
    if rest[..k] == ".." {
      assert rest[..k][0] == '.' && rest[..k][1] == '.';
    }
  }

  lemma Prefix3(input: string, a: char, b: char, c: char)
    ensures [a, b, c] <= input <==> |input| >= 3 && input[0] == a && input[1] == b && input[2] == c
  {
    if |input| >= 3 {
      assert input[..3] == [input[0], input[1], input[2]];
    }
  }

  lemma Prefix4(input: string, a: char, b: char, c: char, d: char)
    ensures [a, b, c, d] <= input <==> |input| >= 4 && input[0] == a && input[1] == b && input[2] == c && input[3] == d
  {
    if |input| >= 4 {
      assert input[..4] == [input[0], input[1], input[2], input[3]];
    }
  }

  /** Which rule applies to an input that starts with a slash. */
  lemma RuleFor(input: string, rest: string)
    requires input == "/" + rest && rest != ""
    ensures !("../" <= input) && !("./" <= input) && input != "." && input != ".."
    ensures "/./" <= input <==> rest[..FirstSlash(rest)] == "." && FirstSlash(rest) < |rest|
    ensures input == "/." <==> rest[..FirstSlash(rest)] == "." && FirstSlash(rest) == |rest|
    ensures "/../" <= input <==> rest[..FirstSlash(rest)] == ".." && FirstSlash(rest) < |rest|
    ensures input == "/.." <==> rest[..FirstSlash(rest)] == ".." && FirstSlash(rest) == |rest|
    ensures FirstSegment(input) == 1 + FirstSlash(rest)
  {
    OneDot(rest);
    TwoDots(rest);
    Prefix3(input, '/', '.', '/');
    Prefix4(input, '/', '.', '.', '/');
    assert input[0] == '/' && input[1] == rest[0] && input[1..] == rest;
  }

  lemma MiddleDot(input: string, next: string, o: string)
    requires input == "/" + "." + next && "/./" <= input && !("../" <= input) && !("./" <= input)
    ensures Rfc(input, o) == Rfc(next, o)
  {
    hide WithoutLast, FirstSegment;
    assert input[2..] == next;
  }

  lemma MiddleDots(input: string, next: string, o: string)
    requires input == "/" + ".." + next && "/../" <= input && !("../" <= input) && !("./" <= input)
    requires !("/./" <= input) && input != "/."
    ensures Rfc(input, o) == Rfc(next, WithoutLast(o))
  {
    hide WithoutLast, FirstSegment;
    assert input[3..] == next;
  }

  lemma MiddleOther(input: string, s: string, next: string, o: string)
    requires input == "/" + s + next && FirstSegment(input) == 1 + |s| && !("../" <= input) && !("./" <= input)
    requires !("/./" <= input) && input != "/." && !("/../" <= input) && input != "/.." && input != "." && input != ".."
    ensures Rfc(input, o) == Rfc(next, o + "/" + s)
  {
    hide WithoutLast;
    assert input[..|s| + 1] == "/" + s && input[|s| + 1..] == next && o + ("/" + s) == o + "/" + s;
  }

  lemma SplitAtSlash(rest: string, s: string, next: string)
    requires FirstSlash(rest) < |rest| && s == rest[..FirstSlash(rest)] && next == "/" + rest[FirstSlash(rest) + 1..]
    ensures rest == s + next && "/" + rest == "/" + s + next
  {
    var k := FirstSlash(rest);
    hide FirstSlash;
    SplitAt(rest, k);
    assert "/" + (s + next) == "/" + s + next;
  }

  lemma SplitAt(rest: string, k: nat)
    requires k < |rest| && rest[k] == '/'
    ensures rest == rest[..k] + ("/" + rest[k + 1..])
  {
    assert rest[k..] == "/" + rest[k + 1..];
  }

  /** One segment by the rules. */
  lemma RfcMiddle(rest: string, s: string, next: string, o: string)
    requires FirstSlash(rest) < |rest| && s == rest[..FirstSlash(rest)] && next == "/" + rest[FirstSlash(rest) + 1..]
    ensures Rfc("/" + rest, o) == Rfc(next, if s == "." then o else if s == ".." then WithoutLast(o) else o + "/" + s)
  {
    hide WithoutLast, FirstSlash, FirstSegment, Rfc;
    var input := "/" + rest;
    RuleFor(input, rest);
    SplitAtSlash(rest, s, next);
    if s == "." {
      MiddleDot(input, next, o);
    } else if s == ".." {
      MiddleDots(input, next, o);
    } else {
      MiddleOther(input, s, next, o);
    }
  }

  lemma RfcLast(rest: string, o: string)
    requires rest != "" && FirstSlash(rest) == |rest|
    ensures Rfc("/" + rest, o) ==
      if rest == "." then o + "/" else if rest == ".." then WithoutLast(o) + "/" else o + "/" + rest
  {
    hide WithoutLast, FirstSlash, FirstSegment;
    var input := "/" + rest;
    RuleFor(input, rest);
    assert rest[..|rest|] == rest;
    if rest == "." {
      RfcRoot(o);
    } else if rest == ".." {
      RfcRoot(WithoutLast(o));
    } else {
      assert input[..|input|] == input && input[|input|..] == "" && o + input == o + "/" + rest;
      assert Rfc("", o + input) == o + input;
    }
  }

  /** Going back over a segment is taking the last one off, and the slash stays. */
  lemma BackUpIsWithoutLast(out: string)
    requires out != "" && out[0] == '/' && out[|out| - 1] == '/'
    ensures BackUp(out) == WithoutLast(out[..|out| - 1]) + "/"
    ensures BackUp(out) != "" && BackUp(out)[0] == '/' && BackUp(out)[|BackUp(out)| - 1] == '/'
  {
    var o := out[..|out| - 1];
    AfterSlashPrefix(out, |out| - 1);
    if |out| > 1 {
      var k := AfterSlash(out, |out| - 1);
      assert out[0] == '/' && k > 0;
      assert out[..k] == out[..k - 1] + "/";
      assert o[..k - 1] == out[..k - 1];
    } else {
      assert out == "/" && o == "";
    }
  }

  lemma {:induction false} AfterSlashPrefix(s: string, j: nat)
    requires j <= |s|
    ensures AfterSlash(s, j) == AfterSlash(s[..j], j)
    decreases j
  {
    if j > 0 && s[j - 1] != '/' {
      AfterSlashPrefix(s, j - 1);
      AfterSlashPrefix(s[..j], j - 1);
      assert s[..j][..j - 1] == s[..j - 1];
    }
  }

  lemma RfcRoot(output: string)
    ensures Rfc("/", output) == output + "/"
  {
    assert FirstSegment("/") == 1;
    assert Rfc("/", output) == Rfc("/"[1..], output + "/"[..1]);
  }

  /** On the way through an absolute path, the loop and the rules agree: the rules' output lacks the slash
      that the loop has put already. */
  lemma {:induction false} WalkIsRfc(out: string, rest: string)
    requires out != "" && out[0] == '/' && out[|out| - 1] == '/'
    ensures Walk(out, rest) == Rfc("/" + rest, out[..|out| - 1])
    decreases |rest|
  {
    hide Rfc, FirstSlash, WithoutLast, Take;
    var o := out[..|out| - 1];
    if rest == "" {
      RfcRoot(o);
      assert "/" + rest == "/" && o + "/" == out;
    } else {
      var k := FirstSlash(rest);
      var s := rest[..k];
      AbsoluteTake(out, s);
      if k < |rest| {
        RfcMiddle(rest, s, "/" + rest[k + 1..], o);
        WalkIsRfc(Take(out, s, true), rest[k + 1..]);
      } else {
        RfcLast(rest, o);
        WalkEnds(Take(out, s, false));
        assert s == rest;
      }
    }
  }

  /** One segment of an absolute path. */
  lemma AbsoluteTake(out: string, s: string)
    requires out != "" && out[0] == '/' && out[|out| - 1] == '/'
    ensures
      var o, next := out[..|out| - 1], Take(out, s, true);
      && next != "" && next[0] == '/' && next[|next| - 1] == '/'
      && next[..|next| - 1] == (if s == "." then o else if s == ".." then WithoutLast(o) else o + "/" + s)
      && Take(out, s, false) == if s == "." then o + "/" else if s == ".." then WithoutLast(o) + "/" else o + "/" + s
  {
    hide WithoutLast, BackUp;
    BackUpIsWithoutLast(out);
    assert out[..|out| - 1] + "/" == out && out + s + "" == out + s;
  }

  /** On every absolute path the loop does what section 5.2.4 of RFC 3986 prescribes. */
  lemma AbsoluteIsRfc(path: string)
    requires path != "" && path[0] == '/'
    ensures Walk("", path) == Rfc(path, "")
  {
    WalkIsRfc("/", path[1..]);
    assert path == "/" + path[1..] && "/"[..0] == "";
    assert Take("", "", true) == "/" && path[..0] == "";
  }

  /** On a relative path it may not: the rules leave a slash here, the loop nothing. */
  lemma RelativeDiffers()
    ensures Walk("", "a/..") == "" && Rfc("a/..", "") == "/"
  {
    var p := "a/..";
    assert FirstSlash(p) == 1 && p[..1] == "a" && p[2..] == "..";
    assert Take("", "a", true) == "a/";
    assert FirstSlash("..") == 2 && ".."[..2] == "..";
    assert AfterSlash("a/", 1) == 0;
    assert Take("a/", "..", false) == "";
    assert FirstSegment(p) == 1 && p[1..] == "/..";
    assert AfterSlash("a", 1) == 0;
    assert !("/../" <= "/..") && !("/./" <= "/..");
    RfcRoot("");
  }

  // ----- On which relative paths it does -----

  /** What became of the first kept segment of a relative path: it is there; a `..` took it back, so that the
      rules have put a slash in front that the loop has not; or after that an empty segment made the loop put
      one too, and the rules a second one. */
  datatype Front = Kept | TakenBack | Rooted

  /** What becomes of the front, and of the number of kept segments to go back over, by segment `s`. */
  function Next(front: Front, depth: nat, s: string): (Front, nat) {
    if s == "." then (front, depth)
    else if s == ".." then
      if depth == 0 then (front, 0)
      else if depth == 1 && front.Kept? then (TakenBack, 0)
      else (front, depth - 1)
    else if s == "" && depth == 0 && front.TakenBack? then (Rooted, 0)
    else (front, depth + 1)
  }

  /** Follows the segments of `rest`. The two outputs are the same at the end if the first segment was never
      taken back, or if a `..` took the rules' second slash back. */
  predicate Meets(front: Front, depth: nat, rest: string)
    decreases |rest|
  {
    if rest == "" then front.Kept?
    else
      var s := rest[..FirstSlash(rest)];
      var (front', depth') := Next(front, depth, s);
      (s == ".." && depth == 0 && front.Rooted?) || Meets(front', depth', Rest(rest))
  }

  /** The dot segments in front change nothing; after them, a slash makes a path absolute. */
  predicate MeetsRfc(path: string)
    decreases |path|
  {
    if path == "" then true
    else
      var s := path[..FirstSlash(path)];
      if IsDot(s) then MeetsRfc(Rest(path))
      else s == "" || Meets(Kept, 1, Rest(path))
  }

  function Slashes(s: string): nat {
    if s == "" then 0 else Slashes(s[..|s| - 1]) + if s[|s| - 1] == '/' then 1 else 0
  }

  /** What the loop has written, in terms of the number of segments to go back over. */
  predicate Shape(front: Front, depth: nat, w: string) {
    && AtStart(w)
    && match front
       case Kept => w != "" && w[0] != '/' && Slashes(w) == depth > 0
       case TakenBack => (w != "" ==> w[0] != '/') && Slashes(w) == depth
       case Rooted => w != "" && w[0] == '/' && Slashes(w) == depth + 1
  }

  lemma {:induction false} SlashesBefore(w: string, j: nat)
    requires j <= |w|
    ensures Slashes(w[..AfterSlash(w, j)]) == Slashes(w[..j])
    decreases j
  {
    if j > 0 && w[j - 1] != '/' {
      SlashesBefore(w, j - 1);
      assert w[..j][..j - 1] == w[..j - 1];
    }
  }

  /** Going back goes over one slash. */
  lemma BackUpSlashes(w: string)
    requires AtStart(w) && |w| > 1
    ensures Slashes(BackUp(w)) + 1 == Slashes(w) && AtStart(BackUp(w)) && (BackUp(w) != "" ==> BackUp(w)[0] == w[0])
  {
    hide AfterSlash;
    var o := w[..|w| - 1];
    SlashesBefore(w, |w| - 1);
    hide Slashes;
    LastSlash(w);
    var k := AfterSlash(w, |w| - 1);
    assert BackUp(w) == w[..k] && (k > 0 ==> w[..k][k - 1] == w[k - 1]);
  }

  lemma LastSlash(w: string)
    requires w != "" && w[|w| - 1] == '/'
    ensures Slashes(w) == Slashes(w[..|w| - 1]) + 1
  {
  }

  lemma NoSlashes(s: string)
    requires forall j :: 0 <= j < |s| ==> s[j] != '/'
    ensures Slashes(s) == 0
  {
  }

  lemma {:induction false} SlashesSum(w: string, s: string)
    ensures Slashes(w + s) == Slashes(w) + Slashes(s)
    decreases |s|
  {
    if s == "" {
      assert w + s == w;
    } else {
      SlashesSum(w, s[..|s| - 1]);
      assert (w + s)[..|w + s| - 1] == w + s[..|s| - 1];
    }
  }

  /** A segment with its slash is one more to go back over. */
  lemma OneMoreSlash(w: string, s: string)
    requires forall j :: 0 <= j < |s| ==> s[j] != '/'
    ensures Slashes(w + s + "/") == Slashes(w) + 1 && AtStart(w + s + "/")
  {
    SlashesSum(w + s, "/");
    SlashesSum(w, s);
    NoSlashes(s);
    assert Slashes("/") == 1;
  }

  lemma {:induction false} AfterSlashUnder(w: string, j: nat)
    requires j <= |w|
    ensures AfterSlash("/" + w, j + 1) == AfterSlash(w, j) + 1
    decreases j
  {
    if j > 0 && w[j - 1] != '/' {
      AfterSlashUnder(w, j - 1);
    }
  }

  /** An extra slash in front stays there, except where the loop does not go back over the last slash. */
  lemma BackUpUnder(w: string)
    requires AtStart(w)
    ensures BackUp("/" + w) == if w == "/" then "/" else "/" + BackUp(w)
  {
    if w != "" {
      AfterSlashUnder(w, |w| - 1);
    }
  }

  lemma SlashesNone(w: string)
    requires AtStart(w) && Slashes(w) == 0
    ensures w == ""
  {
  }

  /** One segment with its slash keeps the shape. */
  lemma ShapeStep(front: Front, depth: nat, w: string, s: string)
    requires Shape(front, depth, w) && forall j :: 0 <= j < |s| ==> s[j] != '/'
    ensures var (front', depth') := Next(front, depth, s); Shape(front', depth', Take(w, s, true))
  {
    hide Slashes, AfterSlash;
    EmptyNoSlash();
    if s == ".." {
      if depth == 0 && |w| > 1 {
        GoesNowhere(front, w);
      } else if |w| > 1 {
        BackUpSlashes(w);
        if depth == 1 && front.Kept? {
          SlashesNone(BackUp(w));
        }
      } else if w == "/" {
        OneMoreSlash("", "");
        assert "" + "" + "/" == "/";
      }
    } else if s != "." {
      OneMoreSlash(w, s);
      if depth == 0 && front.TakenBack? {
        SlashesNone(w);
      }
    }
  }

  lemma GoesNowhere(front: Front, w: string)
    requires Shape(front, 0, w)
    ensures |w| <= 1
  {
    if front.Rooted? {
      RootedIs(0, w);
    } else {
      SlashesNone(w);
    }
  }

  /** A rooted output with nothing to go back over is a slash, and only such a one is. */
  lemma RootedIs(depth: nat, w: string)
    requires Shape(Rooted, depth, w)
    ensures w == "/" <==> depth == 0
  {
    assert Slashes("/") == 1 by { LastSlash("/"); assert "/"[..0] == ""; }
    if |w| > 1 {
      BackUpSlashes(w);
      assert BackUp(w) != "";
      if depth == 0 {
        SlashesNone(BackUp(w));
      }
    }
  }

  lemma TakeUnder(w: string, s: string, slash: bool)
    requires AtStart(w) && (s == ".." ==> w != "/")
    ensures Take("/" + w, s, slash) == "/" + Take(w, s, slash)
  {
    hide BackUp;
    BackUpUnder(w);
    PutInFront(w, s, if slash then "/" else "");
  }

  lemma PutInFront(w: string, s: string, end: string)
    ensures ("/" + w) + s + end == "/" + (w + s + end)
  {
  }

  /** The loop with a slash too many, which it has to the end unless it goes back over it. */
  lemma {:induction false} WalkUnder(front: Front, depth: nat, w: string, rest: string)
    requires !front.Kept? && (rest != "" ==> Shape(front, depth, w))
    ensures Walk("/" + w, rest) == Walk(w, rest) <==> Meets(front, depth, rest)
    decreases |rest|
  {
    hide FirstSlash, BackUp, Shape, Take, Next;
    if rest == "" {
      assert |"/" + w| != |w|;
    } else {
      var k := FirstSlash(rest);
      var s := rest[..k];
      ShapeWhole(front, depth, w);
      if s == ".." && front.Rooted? && depth == 0 {
        RootedGoesBack();
        assert "/" + w == "//";
      } else {
        TakeUnder(w, s, k < |rest|);
        if k < |rest| {
          ShapeStep(front, depth, w, s);
        }
        var (front', depth') := Next(front, depth, s);
        NextNotKept(front, depth, s);
        WalkUnder(front', depth', Take(w, s, k < |rest|), Rest(rest));
      }
    }
  }

  lemma ShapeWhole(front: Front, depth: nat, w: string)
    requires Shape(front, depth, w) && !front.Kept?
    ensures AtStart(w) && (w == "/" <==> front.Rooted? && depth == 0)
  {
    hide Slashes;
    if front.Rooted? {
      RootedIs(depth, w);
    }
  }

  lemma NextNotKept(front: Front, depth: nat, s: string)
    requires !front.Kept?
    ensures !Next(front, depth, s).0.Kept?
  {
  }

  lemma RootedGoesBack()
    ensures forall slash :: Take("/", "..", slash) == Take("//", "..", slash) == "/"
  {
    assert "/" + "/" == "//";
    BackUpUnder("/");
  }

  /** Going back over a kept segment is taking it off, with the slash staying unless it was the first. */
  lemma KeptBack(depth: nat, w: string)
    requires Shape(Kept, depth, w)
    ensures |w| > 1
    ensures BackUp(w) == if depth == 1 then "" else WithoutLast(w[..|w| - 1]) + "/"
    ensures depth == 1 ==> WithoutLast(w[..|w| - 1]) == ""
  {
    hide Slashes, AfterSlash;
    var o := w[..|w| - 1];
    AfterSlashPrefix(w, |w| - 1);
    BackUpSlashes(w);
    if depth == 1 {
      SlashesNone(BackUp(w));
    } else {
      EmptyNoSlash();
      var k := AfterSlash(w, |w| - 1);
      assert w[..k] == o[..k - 1] + "/";
    }
  }

  lemma EmptyNoSlash()
    ensures Slashes("") == 0
  {
  }

  /** The loop and the rules from the first kept segment of a relative path on. */
  lemma {:induction false} RelativeWalk(depth: nat, w: string, rest: string)
    requires Shape(Kept, depth, w)
    ensures Walk(w, rest) == Rfc("/" + rest, w[..|w| - 1]) <==> Meets(Kept, depth, rest)
    decreases |rest|
  {
    hide Rfc, FirstSlash, WithoutLast, BackUp, Slashes;
    var o := w[..|w| - 1];
    assert o + "/" == w;
    if rest == "" {
      RfcRoot(o);
      assert "/" + rest == "/";
    } else {
      var k := FirstSlash(rest);
      var s, next := rest[..k], Rest(rest);
      var w' := Take(w, s, k < |rest|);
      KeptBack(depth, w);
      if k == |rest| {
        RfcLast(rest, o);
        assert s == rest && rest[|rest|..] == "" && w + s + "" == w + s;
      } else {
        RfcMiddle(rest, s, "/" + next, o);
        ShapeStep(Kept, depth, w, s);
        if s == ".." && depth == 1 {
          WalkIsRfc("/", next);
          EmptyNoSlash();
          WalkUnder(TakenBack, 0, "", next);
          assert "/"[..0] == "" && "/" + "" == "/";
        } else {
          RelativeWalk(if s == "." then depth else if s == ".." then depth - 1 else depth + 1, w', next);
          assert w'[..|w'| - 1] == if s == "." then o else if s == ".." then WithoutLast(o) else o + "/" + s;
        }
      }
    }
  }

  /** Which rule applies to a relative input. */
  lemma RelativeRule(path: string)
    requires path != "" && path[0] != '/'
    ensures
      var k := FirstSlash(path);
      && !("/./" <= path) && path != "/." && !("/../" <= path) && path != "/.."
      && ("./" <= path <==> path[..k] == "." && k < |path|)
      && ("../" <= path <==> path[..k] == ".." && k < |path|)
      && ("./" <= path ==> path[2..] == Rest(path)) && ("../" <= path ==> path[3..] == Rest(path))
  {
    OneDot(path);
    TwoDots(path);
    Prefix2(path, '.', '/');
    Prefix3(path, '.', '.', '/');
  }

  lemma Prefix2(input: string, a: char, b: char)
    ensures [a, b] <= input <==> |input| >= 2 && input[0] == a && input[1] == b
  {
    if |input| >= 2 {
      assert input[..2] == [input[0], input[1]];
    }
  }

  /** A first segment that is kept. */
  lemma RelativeStart(path: string)
    requires path != "" && path[0] != '/' && !IsDot(path[..FirstSlash(path)])
    ensures Walk("", path) == Rfc(path, "") <==> Meets(Kept, 1, Rest(path))
  {
    hide Rfc, FirstSlash, WithoutLast, BackUp, Slashes;
    var k := FirstSlash(path);
    var s, next := path[..k], Rest(path);
    RfcFirst(path);
    assert Take("", s, k < |path|) == s + if k < |path| then "/" else "";
    if k < |path| {
      EmptyNoSlash();
      OneMoreSlash("", s);
      assert "" + s + "/" == s + "/" && (s + "/")[..k] == s;
      RelativeWalk(1, s + "/", next);
    } else {
      RfcDone(s);
    }
  }

  lemma RfcDone(output: string)
    ensures Rfc("", output) == output
  {
  }

  /** The rules move a first segment that is kept to the output. */
  lemma RfcFirst(path: string)
    requires path != "" && path[0] != '/' && !IsDot(path[..FirstSlash(path)])
    ensures
      var k := FirstSlash(path);
      0 < k && path[0] == path[..k][0] &&
      Rfc(path, "") == Rfc(if k < |path| then "/" + Rest(path) else "", path[..k])
  {
    hide FirstSlash, Rfc, ByRuleE, FirstSegment;
    var k := FirstSlash(path);
    KeptByRuleE(path);
    RuleE(path);
    assert path[k..] == if k < |path| then "/" + Rest(path) else "";
  }

  predicate ByRuleE(input: string) {
    && input != "" && input != "." && input != ".."
    && !("../" <= input) && !("./" <= input) && !("/./" <= input) && input != "/." && !("/../" <= input) &&
        input != "/.."
  }

  lemma KeptByRuleE(path: string)
    requires path != "" && path[0] != '/' && !IsDot(path[..FirstSlash(path)])
    ensures ByRuleE(path) && FirstSegment(path) == FirstSlash(path) > 0
  {
    hide FirstSlash;
    RelativeRule(path);
    FirstIsWhole(path);
  }

  lemma RuleE(input: string)
    requires ByRuleE(input)
    ensures var k := FirstSegment(input); Rfc(input, "") == Rfc(input[k..], input[..k])
  {
    hide FirstSegment, WithoutLast;
    var k := FirstSegment(input);
    assert "" + input[..k] == input[..k];
  }

  lemma FirstIsWhole(path: string)
    requires path != "" && path[0] != '/'
    ensures FirstSlash(path) > 0 && (path == "." || path == ".." ==> path[..FirstSlash(path)] == path)
  {
    assert FirstSlash(".") == 1 && FirstSlash("..") == 2;
  }

  /** Dot segments in front are dropped by both. */
  lemma DotsInFront(path: string)
    requires path != "" && IsDot(path[..FirstSlash(path)])
    ensures Walk("", path) == Walk("", Rest(path)) && Rfc(path, "") == Rfc(Rest(path), "")
  {
    hide WithoutLast, FirstSegment, FirstSlash;
    var k := FirstSlash(path);
    assert path[0] == path[..k][0];
    RelativeRule(path);
    if k == |path| {
      assert path == path[..k];
    }
  }

  /** For every path, absolute or relative: the loop does what section 5.2.4 of RFC 3986 prescribes if and only
      if no `..` takes back the first kept segment of a relative path for good. */
  lemma {:induction false} MeetsRfcIff(path: string)
    ensures Walk("", path) == Rfc(path, "") <==> MeetsRfc(path)
    decreases |path|
  {
    hide Walk, Rfc, Meets;
    if path == "" {
      RfcDone("");
      WalkEnds("");
    } else if IsDot(path[..FirstSlash(path)]) {
      DotsInFront(path);
      MeetsRfcIff(Rest(path));
    } else if path[0] == '/' {
      AbsoluteIsRfc(path);
    } else {
      RelativeStart(path);
      FirstIsWhole(path);
    }
  }

  // ----- Doing it twice -----

  predicate IsDot(s: string) {
    s == "." || s == ".."
  }

  /** No segment is `.` or `..`. */
  predicate NoDots(path: string) {
    var k := FirstSlash(path);
    !IsDot(path[..k]) && (k < |path| ==> NoDots(path[k + 1..]))
  }

  predicate AtStart(out: string) {
    out == "" || out[|out| - 1] == '/'
  }

  lemma {:induction false} NoDotsConcat(out: string, x: string)
    requires NoDots(out) && AtStart(out) && NoDots(x)
    ensures NoDots(out + x)
    decreases |out|
  {
    if out == "" {
      assert out + x == x;
    } else {
      hide FirstSlash;
      FirstOfConcat(out, x);
      NoDotsConcat(out[FirstSlash(out) + 1..], x);
    }
  }

  lemma FirstOfConcat(out: string, x: string)
    requires out != "" && AtStart(out)
    ensures
      var k := FirstSlash(out);
      k < |out| && FirstSlash(out + x) == k && (out + x)[..k] == out[..k] && (out + x)[k + 1..] == out[k + 1..] + x
  {
    FirstSlashIs(out + x, FirstSlash(out));
  }

  lemma NoDotsSegment(s: string)
    requires !IsDot(s) && FirstSlash(s) == |s|
    ensures NoDots(s) && NoDots(s + "/")
  {
    assert s[..|s|] == s;
    FirstSlashIs(s + "/", |s|);
    assert (s + "/")[..|s|] == s && (s + "/")[|s| + 1..] == "";
    assert NoDots("");
  }

  /** A kept segment after an output without dot segments. */
  lemma NoDotsAppend(out: string, s: string, slash: bool)
    requires NoDots(out) && AtStart(out) && !IsDot(s) && FirstSlash(s) == |s|
    ensures NoDots(out + s + if slash then "/" else "")
  {
    NoDotsSegment(s);
    if slash {
      NoDotsConcat(out, s + "/");
      assert out + s + "/" == out + (s + "/");
    } else {
      NoDotsConcat(out, s);
      assert out + s + "" == out + s;
    }
  }

  lemma {:induction false} FirstSlashIs(s: string, k: nat)
    requires k <= |s| && (forall j :: 0 <= j < k ==> s[j] != '/') && (k < |s| ==> s[k] == '/')
    ensures FirstSlash(s) == k
    decreases |s|
  {
    var f := FirstSlash(s);
    assert f < |s| ==> s[f] == '/';
  }

  lemma {:induction false} NoDotsPrefix(out: string, k: nat)
    requires NoDots(out) && k <= |out| && (k > 0 ==> out[k - 1] == '/')
    ensures NoDots(out[..k])
    decreases |out|
  {
    var p := out[..k];
    if k == 0 {
      assert p == "" && FirstSlash(p) == 0;
    } else {
      var f := FirstSlash(out);
      FirstSlashIs(p, f);
      assert p[..f] == out[..f];
      NoDotsPrefix(out[f + 1..], k - f - 1);
      assert p[f + 1..] == out[f + 1..][..k - f - 1];
    }
  }

  /** The result has no dot segments, whatever the path. */
  lemma {:induction false} WalkNoDots(out: string, rest: string)
    requires NoDots(out) && AtStart(out)
    ensures NoDots(Walk(out, rest))
    decreases |rest|
  {
    if rest != "" {
      var k := FirstSlash(rest);
      var s := rest[..k];
      var out' := Take(out, s, k < |rest|);
      FirstSlashIs(s, k);
      if s == ".." {
        if |out| > 1 {
          NoDotsPrefix(out, AfterSlash(out, |out| - 1));
        }
      } else if s != "." {
        NoDotsAppend(out, s, k < |rest|);
      }
      if k < |rest| {
        WalkNoDots(out', rest[k + 1..]);
      }
    }
  }

  /** A path without dot segments is left as it is. */
  lemma {:induction false} WalkKeeps(out: string, rest: string)
    requires NoDots(rest)
    ensures Walk(out, rest) == out + rest
    decreases |rest|
  {
    hide FirstSlash, Take, Walk, NoDots;
    if rest == "" {
      WalkEnds(out);
      assert out + rest == out;
    } else {
      var k := FirstSlash(rest);
      KeepsFirst(out, rest);
      if k < |rest| {
        WalkKeeps(out + rest[..k + 1], rest[k + 1..]);
        assert out + rest[..k + 1] + rest[k + 1..] == out + rest;
      } else {
        WalkEnds(out + rest);
      }
    }
  }

  /** A first segment that is no dot segment is appended with its slash. */
  lemma KeepsFirst(out: string, rest: string)
    requires NoDots(rest) && rest != ""
    ensures
      var k := FirstSlash(rest);
      if k < |rest| then NoDots(rest[k + 1..]) && Walk(out, rest) == Walk(out + rest[..k + 1], rest[k + 1..])
      else Walk(out, rest) == Walk(out + rest, "")
  {
    hide BackUp;
    var k := FirstSlash(rest);
    hide FirstSlash;
    assert rest[..|rest|] == rest;
    if k < |rest| {
      assert out + rest[..k] + "/" == out + rest[..k + 1];
    } else {
      assert out + rest + "" == out + rest;
    }
  }

  lemma EmptyNoDots()
    ensures NoDots("") && AtStart("")
  {
  }

  /** A part that ends with a slash can be walked on its own. */
  lemma {:induction false} WalkConcat(out: string, p: string, x: string)
    requires AtStart(out) && AtStart(p)
    ensures Walk(out, p + x) == Walk(Walk(out, p), x) && AtStart(Walk(out, p))
    decreases |p|
  {
    hide FirstSlash, Take;
    if p == "" {
      assert p + x == x;
    } else {
      FirstOfConcat(p, x);
      var k := FirstSlash(p);
      TakeAtStart(out, p[..k]);
      WalkConcat(Take(out, p[..k], true), p[k + 1..], x);
    }
  }

  lemma LastStarts(out: string, s: string, w: string)
    requires AtStart(out) && (forall j :: 0 <= j < |s| ==> s[j] != '/') && w == out + s + "/"
    ensures AfterSlash(w, |w| - 1) == |out|
  {
    hide AfterSlash;
    forall i | |out| <= i < |w| - 1 ensures w[i] != '/' {
      assert w[i] == s[i - |out|];
    }
    AfterSlashIs(w, |w| - 1, |out|);
  }

  /** The last segment that was written is the one that goes. */
  lemma BackUpLast(out: string, s: string)
    requires AtStart(out) && s != "" && FirstSlash(s) == |s|
    ensures BackUp(out + s + "/") == out
  {
    hide FirstSlash, AfterSlash, AtStart;
    var w := out + s + "/";
    LastStarts(out, s, w);
    assert |w| > 1 && w[..|out|] == out;
  }

  lemma WalkSegment(out: string, s: string, r: string)
    requires FirstSlash(s) == |s|
    ensures Walk(out, s + "/" + r) == Walk(Take(out, s, true), r)
  {
    var x := s + "/" + r;
    assert forall i :: 0 <= i < |s| ==> x[i] == s[i];
    FirstSlashIs(x, |s|);
    assert x[..|s|] == s && x[|s| + 1..] == r;
  }

  lemma DotSegmentsAre()
    ensures FirstSlash(".") == 1 && FirstSlash("..") == 2
  {
    FirstSlashIs(".", 1);
    FirstSlashIs("..", 2);
  }

  /** Wherever they are in a path: a segment followed by `..` can be taken out together with it, and so can a `.`; and
      a `..` at the root. */
  lemma DotsCancel(p: string, s: string, r: string)
    requires AtStart(p) && s != "" && !IsDot(s) && FirstSlash(s) == |s|
    ensures Walk("", p + (s + "/" + (".." + "/" + r))) == Walk("", p + r)
    ensures Walk("", p + ("." + "/" + r)) == Walk("", p + r)
    ensures Walk("/", ".." + "/" + r) == Walk("/", r)
  {
    hide FirstSlash, Walk;
    var out := Walk("", p);
    WalkConcat("", p, s + "/" + (".." + "/" + r));
    WalkConcat("", p, "." + "/" + r);
    WalkConcat("", p, r);
    DotSegmentsAre();
    WalkSegment(out, s, ".." + "/" + r);
    WalkSegment(out + s + "/", "..", r);
    WalkSegment(out, ".", r);
    WalkSegment("/", "..", r);
    BackUpLast(out, s);
  }

  /** Removing dot segments twice is removing them once. */
  lemma Idempotent(path: string)
    ensures Walk("", Walk("", path)) == Walk("", path)
  {
    hide Walk, NoDots;
    EmptyNoDots();
    WalkNoDots("", path);
    WalkKeeps("", Walk("", path));
  }

  // ----- In place -----

  /** The length of the segment at `pathpos`. */
  method FindSlash(path: array<char>, pathpos: nat, n: nat) returns (slashpos: nat)
    requires pathpos <= n <= path.Length
    ensures pathpos + slashpos <= n && slashpos == FirstSlash(path[pathpos..n])
  {
    slashpos := 0;
    while pathpos + slashpos < n
      invariant pathpos + slashpos <= n
      invariant forall j :: pathpos <= j < pathpos + slashpos ==> path[j] != '/'
    {
      if path[pathpos + slashpos] == '/' {
        break;
      }
      slashpos := slashpos + 1;
    }
    FirstSlashIs(path[pathpos..n], slashpos);
  }

  /** Where a `..` segment backs up to. */
  method FindBackUp(path: array<char>, newpos: nat) returns (lastslashpos: nat)
    requires newpos <= path.Length
    ensures lastslashpos <= newpos && path[..lastslashpos] == BackUp(path[..newpos])
  {
    lastslashpos := newpos;
    if lastslashpos > 1 {
      lastslashpos := lastslashpos - 1;
      while lastslashpos > 0
        invariant lastslashpos < newpos
        invariant forall j :: lastslashpos <= j < newpos - 1 ==> path[j] != '/'
      {
        if path[lastslashpos - 1] == '/' {
          break;
        }
        lastslashpos := lastslashpos - 1;
      }
      AfterSlashIs(path[..newpos], newpos - 1, lastslashpos);
      assert path[..newpos][..lastslashpos] == path[..lastslashpos];
    }
  }

  lemma {:induction false} AfterSlashIs(s: string, j: nat, k: nat)
    requires k <= j <= |s| && (k > 0 ==> s[k - 1] == '/') && (forall i :: k <= i < j ==> s[i] != '/')
    ensures AfterSlash(s, j) == k
    decreases j
  {
    var a := AfterSlash(s, j);
    assert a > 0 ==> s[a - 1] == '/';
  }

  /** `memmove` of `k` characters from `from` down to `to`. */
  method MoveDown(path: array<char>, to: nat, from: nat, k: nat)
    requires to <= from && from + k <= path.Length
    modifies path
    ensures path[..to + k] == old(path[..to]) + old(path[from..from + k])
    ensures forall j :: to + k <= j < path.Length ==> path[j] == old(path[j])
  {
    ghost var before := path[..];
    forall i | 0 <= i < k {
      path[to + i] := path[from + i];
    }
    ghost var moved := before[..to] + before[from..from + k];
    assert |moved| == to + k;
    forall j | 0 <= j < to + k ensures path[..to + k][j] == moved[j] {
      if j >= to {
        assert path[to + (j - to)] == before[from + (j - to)];
      }
    }
    assert path[..to + k] == moved;
    assert before[..to] == old(path[..to]) && before[from..from + k] == old(path[from..from + k]);
  }

  /** The body of the loop for the segment of length `k` at `pathpos`. */
  method OneSegment(path: array<char>, n: nat, pathpos: nat, k: nat, newpos: nat) returns (newpos': nat)
    requires newpos <= pathpos && pathpos + k <= n < path.Length && AtStart(path[..newpos])
    modifies path
    ensures newpos' <= pathpos + k + (if pathpos + k < n then 1 else 0)
    ensures path[..newpos'] == Take(old(path[..newpos]), old(path[pathpos..pathpos + k]), pathpos + k < n)
    ensures path[n + 1..] == old(path[n + 1..])
    ensures pathpos + k < n ==> path[pathpos + k + 1..n] == old(path[pathpos + k + 1..n])
  {
    hide BackUp;
    ghost var out, s := path[..newpos], path[pathpos..pathpos + k];
    newpos' := newpos;
    if k == 2 && path[pathpos] == '.' && path[pathpos + 1] == '.' {
      assert s == "..";
      // the assertion of the original: a slash was put last, or nothing
      assert newpos == 0 || path[newpos - 1] == '/';
      newpos' := FindBackUp(path, newpos);
    } else if k == 1 && path[pathpos] == '.' {
      assert s == ".";
    } else {
      assert s != "." && s != ".." by {
        assert k == 1 ==> s == [path[pathpos]];
        assert k == 2 ==> s == [path[pathpos], path[pathpos + 1]];
      }
      newpos' := KeepSegment(path, n, pathpos, k, newpos);
    }
  }

  /** A segment that stays, and its slash. */
  method KeepSegment(path: array<char>, n: nat, pathpos: nat, k: nat, newpos: nat) returns (newpos': nat)
    requires newpos <= pathpos && pathpos + k <= n < path.Length
    modifies path
    ensures newpos' == newpos + k + (if pathpos + k < n then 1 else 0)
    ensures path[..newpos'] ==
      old(path[..newpos]) + old(path[pathpos..pathpos + k]) + if pathpos + k < n then "/" else ""
    ensures path[n + 1..] == old(path[n + 1..])
    ensures pathpos + k < n ==> path[pathpos + k + 1..n] == old(path[pathpos + k + 1..n])
  {
    ghost var before := path[..];
    MoveDown(path, newpos, pathpos, k);
    newpos' := newpos + k;
    ghost var kept := path[..newpos'];
    if pathpos + k < n {
      path[newpos'] := '/';
      newpos' := newpos' + 1;
      assert path[..newpos'] == kept + "/";
    } else {
      assert kept + "" == kept;
    }
    assert forall j :: newpos' <= j < path.Length ==> path[j] == before[j];
    SameFrom(path, before, newpos', n + 1, path.Length);
    if pathpos + k < n {
      SameFrom(path, before, newpos', pathpos + k + 1, n);
    }
  }

  lemma SameFrom(path: array<char>, before: seq<char>, from: nat, lo: nat, hi: nat)
    requires |before| == path.Length && from <= lo <= hi <= path.Length
    requires forall j :: from <= j < path.Length ==> path[j] == before[j]
    ensures path[lo..hi] == before[lo..hi]
  {
    assert |path[lo..hi]| == |before[lo..hi]|;
    forall j | 0 <= j < hi - lo ensures path[lo..hi][j] == before[lo..hi][j] {
      assert path[lo..hi][j] == path[lo + j];
    }
  }

  lemma WalkStep(text: string, pathpos: nat, out: string)
    requires pathpos < |text|
    ensures var rest := text[pathpos..]; var k := FirstSlash(rest);
      Walk(out, rest) == Walk(Take(out, rest[..k], k < |rest|),
          if pathpos + k + 1 <= |text| then text[pathpos + k + 1..] else "")
  {
    hide Take, FirstSlash;
    var rest := text[pathpos..];
    var k := FirstSlash(rest);
    RestIs(text, pathpos, k);
  }

  lemma RestIs(text: string, pathpos: nat, k: nat)
    requires pathpos + k <= |text| && k == FirstSlash(text[pathpos..])
    ensures Rest(text[pathpos..]) == if pathpos + k + 1 <= |text| then text[pathpos + k + 1..] else ""
  {
    if k < |text[pathpos..]| {
      assert text[pathpos..][k + 1..] == text[pathpos + k + 1..];
    }
  }

  lemma TakeAtStart(out: string, s: string)
    requires AtStart(out)
    ensures AtStart(Take(out, s, true))
  {
  }

  /** `RemoveDotSegments` on `path_`, whose text of length `n` ends with a null character. The write
      position never passes the read position, and what is written is the new path. */
  method RemoveDotSegments(path: array<char>, n: nat) returns (newpos: nat)
    requires n < path.Length && path[n] == '\0'
    modifies path
    ensures newpos <= n && path[newpos] == '\0' && path[..newpos] == Walk("", old(path[..n]))
    ensures path[n + 1..] == old(path[n + 1..])
  {
    hide Walk, Take, FirstSlash, AtStart;
    ghost var text := path[..n];
    var pathpos := 0;
    newpos := 0;
    Starts(text);
    while pathpos < n
      invariant newpos <= n && newpos <= pathpos <= n + 1
      invariant pathpos <= n ==> path[pathpos..n] == text[pathpos..]
      invariant path[n + 1..] == old(path[n + 1..])
      invariant pathpos < n ==> AtStart(path[..newpos])
      invariant Walk(path[..newpos], if pathpos <= n then text[pathpos..] else "") == Walk("", text)
    {
      var slashpos := FindSlash(path, pathpos, n);
      WalkStep(text, pathpos, path[..newpos]);
      TakeAtStart(path[..newpos], path[pathpos..pathpos + slashpos]);
      Slice(path, pathpos, n, slashpos);
      newpos := OneSegment(path, n, pathpos, slashpos, newpos);
      pathpos := pathpos + slashpos + 1;
    }
    WalkEnds(path[..newpos]);
    EndText(path, newpos, n);
  }

  /** The null character after the new path. */
  method EndText(path: array<char>, newpos: nat, n: nat)
    requires newpos <= n < path.Length
    modifies path
    ensures path[newpos] == '\0' && path[..newpos] == old(path[..newpos]) && path[n + 1..] == old(path[n + 1..])
  {
    path[newpos] := '\0';
  }

  lemma Slice(path: array<char>, from: nat, to: nat, k: nat)
    requires from + k <= to <= path.Length
    ensures path[from..to][..k] == path[from..from + k]
  {
    var whole, part := path[from..to][..k], path[from..from + k];
    forall i | 0 <= i < k ensures whole[i] == part[i] {
      assert whole[i] == path[from..to][i] == path[from + i];
    }
    assert whole == part;
  }

  lemma Starts(text: string)
    ensures AtStart("") && text[0..] == text
  {
  }

  lemma WalkEnds(out: string)
    ensures Walk(out, "") == out
  {
  }
}
