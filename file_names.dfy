/** File-name handling shared by the three gallery builders: the
    case-insensitive `.jpg`/`.png` filter and `os.path.splitext`. */
module FileNames {

  /** `str.lower` on one character, for the ASCII letters. */
  function LowerChar(c: char): char
  {
    if 'A' <= c <= 'Z' then ((c as int) + 32) as char else c
  }

  /** `str.lower` on a file name, character by character. */
  function Lower(s: string): string
  {
    seq(|s|, i requires 0 <= i < |s| => LowerChar(s[i]))
  }

  predicate EndsWith(s: string, suffix: string)
  {
    |suffix| <= |s| && s[|s| - |suffix|..] == suffix
  }

  /** `file.lower().endswith((".jpg", ".png"))` */
  predicate IsImage(file: string)
  {
    EndsWith(Lower(file), ".jpg") || EndsWith(Lower(file), ".png")
  }

  /** `str.rfind` of one character: the last position holding `c`, or -1. */
  function LastIndexOf(s: string, c: char): (r: int)
    ensures -1 <= r < |s|
    ensures r >= 0 ==> s[r] == c
    ensures forall k :: r < k < |s| ==> s[k] != c
    decreases |s|
  {
    if s == [] then -1
    else if s[|s| - 1] == c then |s| - 1
    else LastIndexOf(s[..|s| - 1], c)
  }

  /** `os.path.splitext` with POSIX separators: the extension starts at the
      last dot after the last '/', unless only dots precede that dot within
      the final path component (so ".jpg" and "..jpg" have no extension).
      An extension is split off exactly when the final component holds a
      dot with some other character before it. */
  function SplitExt(p: string): (r: (string, string))
    ensures r.0 + r.1 == p
    ensures r.1 == [] || (r.1[0] == '.' && '.' !in r.1[1..] && '/' !in r.1)
    ensures r.1 != [] <==> exists k, d :: 0 <= k < d < |p| && p[k] != '.' && p[d] == '.' && '/' !in p[k..]
  {
    var sep := LastIndexOf(p, '/');
    var dot := LastIndexOf(p, '.');
    if dot > sep && exists k :: sep < k < dot && p[k] != '.' then
      assert p == p[..dot] + p[dot..];
      (p[..dot], p[dot..])
    else
      (p, [])
  }

  /** `os.path.splitext(file)[0]`: the name a builder stores for a file. */
  function Stem(file: string): string
  {
    SplitExt(file).0
  }

  /** An image file name ends in a dot and three letters none of which is a
      dot or a separator. */
  lemma ImageSuffix(file: string)
    requires IsImage(file)
    ensures |file| >= 4 && file[|file| - 4] == '.'
    ensures forall k :: |file| - 3 <= k < |file| ==> file[k] != '.' && file[k] != '/'
  {
    var low := Lower(file);
    var n := |file|;
    assert low[n - 4..] == ".jpg" || low[n - 4..] == ".png";
    assert low[n - 4] == '.';
    forall k | n - 3 <= k < n
      ensures file[k] != '.' && file[k] != '/'
    {
      assert low[k] == low[n - 4..][k - (n - 4)];
    }
  }

  /** The name stored for an image file listed in a directory (no '/'):
      the file name minus its four-character extension, in its original
      case, except that a name made only of dots before the extension is
      kept whole, extension and all. */
  lemma {:induction false} StemOfImage(file: string)
    requires IsImage(file) && '/' !in file
    ensures (exists k :: 0 <= k < |file| - 4 && file[k] != '.') ==> Stem(file) == file[..|file| - 4]
    ensures (forall k :: 0 <= k < |file| - 4 ==> file[k] == '.') ==> Stem(file) == file
  {
    ImageSuffix(file);
    var n := |file|;
    assert LastIndexOf(file, '.') == n - 4;
    assert LastIndexOf(file, '/') == -1;
  }
}
