/** The upload extension check of the web front-end (`allowed_file`, app.py
    lines 31-33): a name is accepted when the text after its last '.',
    lower-cased, is one of the image extensions the service takes. */
module FileNames {

  datatype Option<T> = None | Some(value: T)

  /** The extensions an upload may carry (app.py line 17). */
  const AllowedExtensions: set<string> := {"png", "jpg", "jpeg"}

  /** Position of the last '.' in `s`, if there is one. */
  function LastDot(s: string): (r: Option<nat>)
    ensures r.None? ==> '.' !in s
    ensures r.Some? ==> r.value < |s| && s[r.value] == '.'
    ensures r.Some? ==> forall j :: r.value < j < |s| ==> s[j] != '.'
  {
    if |s| == 0 then None
    else if s[|s| - 1] == '.' then Some(|s| - 1)
    else LastDot(s[..|s| - 1])
  }

  /** Python's `s.rsplit('.', 1)`: the whole string when it holds no '.',
      otherwise the text before and the text after its last '.'. */
  function RSplitDot(s: string): (parts: seq<string>)
    ensures |parts| == 1 || |parts| == 2
    ensures |parts| == 1 <==> '.' !in s
    ensures |parts| == 1 ==> parts[0] == s
    ensures |parts| == 2 ==> s == parts[0] + "." + parts[1] && '.' !in parts[1]
  {
    match LastDot(s)
    case None => [s]
    case Some(i) =>
      assert s == s[..i] + "." + s[i + 1..];
      [s[..i], s[i + 1..]]
  }

  predicate IsAsciiUpper(c: char) {
    'A' <= c <= 'Z'
  }

  /** Python's `str.lower` restricted to ASCII letters. */
  function LowerChar(c: char): (d: char)
    ensures !IsAsciiUpper(d)
    ensures IsAsciiUpper(c) ==> 'a' <= d <= 'z' && d as int == c as int + 32
    ensures !IsAsciiUpper(c) ==> d == c
    ensures d == '.' <==> c == '.'
  {
    if IsAsciiUpper(c) then (c as int - 'A' as int + 'a' as int) as char else c
  }

  /** Python's `s.lower()` on ASCII: same length, no capital left, every
      character that is not a capital kept. */
  function Lower(s: string): (t: string)
    ensures |t| == |s|
    ensures forall i :: 0 <= i < |s| ==> t[i] == LowerChar(s[i])
    ensures forall i :: 0 <= i < |s| ==> !IsAsciiUpper(t[i])
    ensures forall i :: 0 <= i < |s| && !IsAsciiUpper(s[i]) ==> t[i] == s[i]
  {
    seq(|s|, i requires 0 <= i < |s| => LowerChar(s[i]))
  }

  /** `allowed_file(filename)`: the `'.' in filename` test guards the index
      `[1]`, which exists exactly when the split found a '.'. An accepted
      name holds a '.', has at least four characters, and ends in `g` or
      `G`, as every allowed extension ends in `g`. */
  function AllowedFile(filename: string): (ok: bool)
    ensures ok ==> '.' in filename && |filename| >= 4
    ensures ok ==> LowerChar(filename[|filename| - 1]) == 'g'
  {
    '.' in filename && Lower(RSplitDot(filename)[1]) in AllowedExtensions
  }

  /** In `p.e` with a dot-free `e`, the last '.' is the one right after `p`. */
  lemma {:induction false} LastDotOfJoin(p: string, e: string)
    requires '.' !in e
    ensures LastDot(p + "." + e) == Some(|p|)
  {
    var s := p + "." + e;
    assert s[|p|] == '.';
  }

  /** Splitting `p.e` at its last dot gives back `p` and `e` when `e` has no dot. */
  lemma {:induction false} RSplitJoin(p: string, e: string)
    requires '.' !in e
    ensures RSplitDot(p + "." + e) == [p, e]
  {
    var s := p + "." + e;
    LastDotOfJoin(p, e);
    assert s[..|p|] == p;
    assert s[|p| + 1..] == e;
  }

  /** A name without any '.' is never accepted. */
  lemma NoDotRejected(filename: string)
    ensures '.' !in filename ==> !AllowedFile(filename)
  {
  }

  /** Only the text after the last '.' matters: whatever precedes it,
      `p.e` is accepted exactly when lower-cased `e` is an allowed extension. */
  lemma {:induction false} LastExtensionDecides(p: string, e: string)
    requires '.' !in e
    ensures AllowedFile(p + "." + e) <==> Lower(e) in AllowedExtensions
  {
    var s := p + "." + e;
    assert s[|p|] == '.';
    RSplitJoin(p, e);
  }

  /** Independent characterisation: a name is accepted exactly when it is
      some prefix, a '.', and a dot-free extension whose lower-case form is
      allowed. */
  lemma {:induction false} AllowedFileIff(filename: string)
    ensures AllowedFile(filename) <==>
      exists p: string, e: string :: filename == p + "." + e && '.' !in e && Lower(e) in AllowedExtensions
  {
    if AllowedFile(filename) {
      var parts := RSplitDot(filename);
      assert filename == parts[0] + "." + parts[1];
    }
    if exists p: string, e: string :: filename == p + "." + e && '.' !in e && Lower(e) in AllowedExtensions {
      var p: string, e: string :| filename == p + "." + e && '.' !in e && Lower(e) in AllowedExtensions;
      LastExtensionDecides(p, e);
    }
  }

  lemma {:induction false} LowerConcat(a: string, b: string)
    ensures Lower(a + b) == Lower(a) + Lower(b)
  {
    assert forall i :: 0 <= i < |a + b| ==> Lower(a + b)[i] == (Lower(a) + Lower(b))[i];
  }

  lemma LowerIdempotent(s: string)
    ensures Lower(Lower(s)) == Lower(s)
  {
  }

  /** Lower-casing the whole name first does not change the verdict. */
  lemma {:induction false} LowerInvariant(filename: string)
    ensures AllowedFile(Lower(filename)) == AllowedFile(filename)
  {
    var t := Lower(filename);
    if '.' in filename {
      var parts := RSplitDot(filename);
      var p, e := parts[0], parts[1];
      LowerConcat(p + ".", e);
      LowerConcat(p, ".");
      assert Lower(".") == ".";
      assert t == Lower(p) + "." + Lower(e);
      assert '.' !in Lower(e);
      LastExtensionDecides(Lower(p), Lower(e));
      LowerIdempotent(e);
    } else {
      assert '.' !in t;
    }
  }

  /** Matching ignores case: two names that lower-case to the same text get
      the same verdict (`X.PNG`, `X.Png` and `X.png` alike). */
  lemma {:induction false} CaseInsensitive(a: string, b: string)
    requires Lower(a) == Lower(b)
    ensures AllowedFile(a) == AllowedFile(b)
  {
    LowerInvariant(a);
    LowerInvariant(b);
  }

  /** Only the last extension counts, even when the stem holds a dot or is empty. */
  lemma {:induction false} StemIgnoredExamples()
    ensures AllowedFile("a.b.png")
    ensures AllowedFile(".png")
  {
    ExampleVerdict("a.b.png", "a.b", "png", "png");
    ExampleVerdict(".png", "", "png", "png");
  }

  /** Upper- and mixed-case extensions are accepted. */
  lemma {:induction false} UpperCaseExamples()
    ensures AllowedFile("X.PNG")
    ensures AllowedFile("X.Png")
  {
    ExampleVerdict("X.PNG", "X", "PNG", "png");
    ExampleVerdict("X.Png", "X", "Png", "png");
  }

  /** Both spellings of the JPEG extension are accepted. */
  lemma {:induction false} JpegExamples()
    ensures AllowedFile("photo.jpeg")
    ensures AllowedFile("photo.JPG")
  {
    ExampleVerdict("photo.jpeg", "photo", "jpeg", "jpeg");
    ExampleVerdict("photo.JPG", "photo", "JPG", "jpg");
  }

  /** Names the rule rejects: an allowed extension that is not the last
      one, a trailing dot, no dot at all, and an unlisted extension. */
  lemma RejectedExamples()
    ensures !AllowedFile("a.png.exe")
    ensures !AllowedFile("a.")
    ensures !AllowedFile("png")
    ensures !AllowedFile("photo.gif")
  {
  }

  /** The verdict on a concrete name `p.e`, given `e` lower-cased by hand. */
  lemma {:induction false} ExampleVerdict(name: string, p: string, e: string, lowered: string)
    requires name == p + "." + e && '.' !in e
    requires |e| == |lowered| <= 4
    requires forall i :: 0 <= i < |e| ==> LowerChar(e[i]) == lowered[i]
    ensures AllowedFile(name) <==> lowered in AllowedExtensions
  {
    LowerLiteral(e, lowered);
    LastExtensionDecides(p, e);
  }

  /** Character-by-character evaluation of `Lower` on a short literal. */
  lemma LowerLiteral(s: string, t: string)
    requires |s| == |t| <= 4
    requires forall i :: 0 <= i < |s| ==> LowerChar(s[i]) == t[i]
    ensures Lower(s) == t
  {
  }
}
