/** `os.path.splitext` on POSIX paths, and the two names main.py derives from an
    uploaded file's name: the suffix of the temporary audio file (line 98) and the
    name offered for download (lines 129-130). */
module Paths {

  /** `(root, ext)` as returned by `os.path.splitext`. */
  datatype SplitName = SplitName(root: string, ext: string)

  /** Appended to the root of the uploaded name to name the download. */
  const DownloadSuffix: string := "_transcription.txt"

  /** `s.rfind(c)`: the last position of `c` in `s`, or -1 when there is none. */
  function RFind(s: string, c: char): (r: int)
    ensures -1 <= r < |s|
    ensures r >= 0 ==> s[r] == c
    ensures forall k :: r < k < |s| ==> s[k] != c
  {
    if |s| == 0 then -1
    else if s[|s| - 1] == c then |s| - 1
    else RFind(s[..|s| - 1], c)
  }

  /** The scan over the leading dots of the final component: is some character of
      `p[lo..hi]` not a dot? */
  function NonDotBetween(p: string, lo: int, hi: int): (b: bool)
    requires 0 <= lo && hi <= |p|
    ensures b <==> exists k :: lo <= k < hi && p[k] != '.'
    decreases hi - lo
  {
    lo < hi && (p[lo] != '.' || NonDotBetween(p, lo + 1, hi))
  }

  /** The final path component has a dot with some non-dot character before it
      in that component; only then is there an extension. */
  ghost predicate HasExt(p: string) {
    exists j, k :: 0 <= j < k < |p| && p[j] != '.' && p[k] == '.' && '/' !in p[j..]
  }

  /** The meaning of `splitext`, independent of how it scans: the parts concatenate
      to the input; without a qualifying dot the extension is empty, otherwise it is a
      dot followed by neither a dot nor a slash. */
  ghost predicate IsSplitExt(p: string, r: SplitName) {
    && r.root + r.ext == p
    && if HasExt(p) then |r.ext| > 0 && r.ext[0] == '.' && '.' !in r.ext[1..] && '/' !in r.ext
       else r.ext == ""
  }

  /** The test `splitext` makes, expressed with `HasExt`. */
  lemma SplitCondition(p: string)
    ensures var sep, dot := RFind(p, '/'), RFind(p, '.');
            HasExt(p) <==> dot > sep && NonDotBetween(p, sep + 1, dot)
  {
    var sep, dot := RFind(p, '/'), RFind(p, '.');
    if HasExt(p) {
      var j, k :| 0 <= j < k < |p| && p[j] != '.' && p[k] == '.' && '/' !in p[j..];
      forall m | j <= m < |p| ensures p[m] != '/' {
        assert p[j..][m - j] == p[m];
      }
      assert sep < j < dot;
    }
    if dot > sep && NonDotBetween(p, sep + 1, dot) {
      var j :| sep + 1 <= j < dot && p[j] != '.';
      assert '/' !in p[j..] by {
        forall m | 0 <= m < |p| - j ensures p[j..][m] != '/' {
          assert p[j..][m] == p[j + m];
        }
      }
      assert p[dot] == '.';
    }
  }

  /** Cutting at the last dot, when it follows the last slash, leaves a tail that is
      a dot followed by neither a dot nor a slash. */
  lemma TailAfterLastDot(p: string, sep: int, dot: int)
    requires sep == RFind(p, '/') && dot == RFind(p, '.') && dot > sep
    ensures var e := p[dot..]; |e| > 0 && e[0] == '.' && '.' !in e[1..] && '/' !in e
  {
    var e := p[dot..];
    forall m | 0 <= m < |e| ensures e[m] == p[dot + m] && e[m] != '/' {
    }
    forall m | 0 <= m < |e| - 1 ensures e[1..][m] != '.' {
      assert e[1..][m] == p[dot + 1 + m];
    }
  }

  /** `os.path.splitext(p)` (posixpath: separator `/`, no alternative separator,
      extension separator `.`): split at the last dot when that dot lies in the final
      component and something other than a dot precedes it there. */
  function SplitExt(p: string): (r: SplitName)
    ensures IsSplitExt(p, r)
  {
    var sep := RFind(p, '/');
    var dot := RFind(p, '.');
    SplitCondition(p);
    if dot > sep && NonDotBetween(p, sep + 1, dot) then
      TailAfterLastDot(p, sep, dot);
      assert p[..dot] + p[dot..] == p;
      SplitName(p[..dot], p[dot..])
    else
      SplitName(p, "")
  }

  /** Where a non-empty extension starts: at a dot after which `p` has no dot. */
  lemma ExtensionStart(p: string, r: SplitName)
    requires IsSplitExt(p, r) && HasExt(p)
    ensures p[|r.root|] == '.'
    ensures forall m :: |r.root| < m < |p| ==> p[m] != '.'
  {
    assert p[|r.root|] == r.ext[0];
    forall m | |r.root| < m < |p| ensures p[m] != '.' {
      assert p[m] == r.ext[1..][m - |r.root| - 1];
    }
  }

  /** `splitext` has exactly one possible result: anything meeting its meaning is
      what `SplitExt` computes. */
  lemma SplitExtUnique(p: string, r: SplitName)
    requires IsSplitExt(p, r)
    ensures r == SplitExt(p)
  {
    var q := SplitExt(p);
    if HasExt(p) {
      ExtensionStart(p, r);
      ExtensionStart(p, q);
      assert |r.root| == |q.root|;
      assert r.root == p[..|r.root|] && q.root == p[..|q.root|];
      assert r.ext == p[|r.root|..] && q.ext == p[|q.root|..];
    }
  }

  /** A stem with a named final component followed by a dot-extension splits
      into exactly that stem and extension. */
  lemma SplitExtOfStemAndExt(stem: string, ext: string, j: int)
    requires 0 <= j < |stem| && stem[j] != '.' && '/' !in stem[j..]
    requires |ext| > 0 && ext[0] == '.' && '.' !in ext[1..] && '/' !in ext
    ensures SplitExt(stem + ext) == SplitName(stem, ext)
  {
    var p := stem + ext;
    assert p[j] == stem[j] && p[|stem|] == '.';
    assert p[j..] == stem[j..] + ext;
    assert HasExt(p);
    SplitExtUnique(p, SplitName(stem, ext));
  }

  /** A name whose only dot is its first character (a dotfile) has no extension. */
  lemma DotfileHasNoExtension(name: string)
    requires |name| > 0 && name[0] == '.' && '.' !in name[1..]
    ensures SplitExt(name) == SplitName(name, "")
  {
    forall j, k | 0 <= j < k < |name| && name[j] != '.' ensures name[k] != '.' {
      assert name[k] == name[1..][k - 1];
    }
    assert !HasExt(name);
  }

  /** main.py line 98: the suffix given to the temporary audio file is the extension
      of the uploaded name. */
  function TempSuffix(name: string): (ext: string)
    ensures ext == "" || ext[0] == '.'
    ensures ext != "" <==> HasExt(name)
    ensures |ext| <= |name| && name[|name| - |ext|..] == ext
  {
    SplitExt(name).ext
  }

  /** main.py lines 129-130: the download name is the uploaded name's root followed
      by `_transcription.txt`. */
  function DownloadName(name: string): (d: string)
    ensures |d| >= |DownloadSuffix| && d[|d| - |DownloadSuffix|..] == DownloadSuffix
    ensures d[..|d| - |DownloadSuffix|] + TempSuffix(name) == name
  {
    var root := SplitExt(name).root;
    assert (root + DownloadSuffix)[..|root|] == root;
    root + DownloadSuffix
  }

  /** The download is always a `.txt` file whose root is the uploaded root plus
      `_transcription`. */
  lemma DownloadNameIsTxt(name: string)
    ensures SplitExt(DownloadName(name))
         == SplitName(SplitExt(name).root + "_transcription", ".txt")
  {
    var root := SplitExt(name).root;
    var stem := root + "_transcription";
    assert stem + ".txt" == DownloadName(name);
    assert stem[|root|] == '_';
    assert stem[|root|..] == "_transcription";
    SplitExtOfStemAndExt(stem, ".txt", |root|);
  }

  /** Uploading `speech.mp3` offers `speech_transcription.txt` and writes the audio
      to a temporary `.mp3` file. */
  // The name is written as root + extension so that the verifier sees where
  // `splitext` cuts it.
  lemma SpeechExample()
    ensures DownloadName("speech" + ".mp3") == "speech" + "_transcription.txt"
    ensures TempSuffix("speech" + ".mp3") == ".mp3"
  {
    SplitExtOfStemAndExt("speech", ".mp3", 0);
  }
}
