/**
 * `GetOutFileName` and the three .NET path helpers it uses, on paths whose only
 * directory separator is '/':
 *   output/ + ChangeExtension("vo_<stem>_<voice with ' ' and ',' as '_'>_<m|f>", "wav")
 * where <stem> is GetFileNameWithoutExtension of the input path.
 */
module OutputPaths {
  import opened Wrappers
  import opened Text

  const Separator := '/'
  const OutputDirectory := "output"
  const WaveExtension := "wav"

  /** `Path.GetFileName`: the part after the last separator. */
  function FileName(path: string): (r: string)
    ensures |r| <= |path| && r == path[|path| - |r|..]
    ensures Separator !in r
    ensures |r| < |path| ==> path[|path| - |r| - 1] == Separator
  {
    if path == [] then ""
    else if path[|path| - 1] == Separator then ""
    else FileName(path[..|path| - 1]) + [path[|path| - 1]]
  }

  /** A file name up to its last '.', or all of it when it has none. */
  function Stem(name: string): (r: string)
    ensures r <= name
    ensures '.' !in name ==> r == name
    ensures '.' in name ==> |r| < |name| && name[|r|] == '.' && '.' !in name[|r| + 1..]
  {
    match LastIndexOf(name, '.')
    case None => name
    case Some(j) => name[..j]
  }

  /** `Path.GetFileNameWithoutExtension`: the stem of the file name. */
  function FileNameWithoutExtension(path: string): string
  {
    Stem(FileName(path))
  }

  /** Where `Path.ChangeExtension` cuts: the last '.' with no separator after it. */
  function ExtensionStart(path: string): (r: Option<nat>)
    ensures r.Some? ==> r.value < |path| && path[r.value] == '.'
    ensures r.Some? ==> '.' !in path[r.value + 1..] && Separator !in path[r.value + 1..]
    ensures r.None? ==> forall i :: 0 <= i < |path| && path[i] == '.' ==> Separator in path[i + 1..]
  {
    if path == [] then None
    else if path[|path| - 1] == '.' then Some(|path| - 1)
    else if path[|path| - 1] == Separator then None
    else
      ExtensionStart(path[..|path| - 1])
  }

  /** `Path.ChangeExtension(path, ext)` for a non-null extension. */
  function ChangeExtension(path: string, ext: string): (r: string)
    ensures path == [] ==> r == []
    ensures path != [] && (ext == [] || ext[0] != '.') ==> |r| > |ext| && r[|r| - |ext| - 1..] == "." + ext
  {
    if path == [] then ""
    else
      var stem := match ExtensionStart(path) case Some(j) => path[..j] case None => path;
      if ext != [] && ext[0] == '.' then stem + ext else stem + "." + ext
  }

  /** `Path.Combine(dir, name)` for two path parts: a rooted or empty part gives way to the other. */
  function Combine(dir: string, name: string): (r: string)
    ensures name != [] && name[0] != Separator && dir != [] && dir[|dir| - 1] != Separator ==> r == dir + [Separator] + name
    ensures name == [] ==> r == dir
  {
    if name == [] then dir
    else if name[0] == Separator then name
    else if dir == [] then name
    else if dir[|dir| - 1] == Separator then dir + name
    else dir + [Separator] + name
  }

  /** `voiceName.Replace(" ", "_").Replace(",", "_")` */
  function SanitizeVoice(voice: string): (r: string)
    ensures |r| == |voice|
    ensures ' ' !in r && ',' !in r
    ensures forall c :: c in r ==> c in voice || c == '_'
    ensures forall i :: 0 <= i < |voice| && voice[i] != ' ' && voice[i] != ',' ==> r[i] == voice[i]
    ensures forall i :: 0 <= i < |voice| && (voice[i] == ' ' || voice[i] == ',') ==> r[i] == '_'
  {
    if voice == [] then []
    else [if voice[0] == ' ' || voice[0] == ',' then '_' else voice[0]] + SanitizeVoice(voice[1..])
  }

  function GenderSuffix(male: bool): string
  {
    if male then "m" else "f"
  }

  /** The name handed to ChangeExtension, built from the input's stem. */
  function BaseName(stem: string, voiceName: string, male: bool): string
  {
    "vo_" + stem + "_" + SanitizeVoice(voiceName) + "_" + GenderSuffix(male)
  }

  /** `GetOutFileName` (Program.cs lines 126-131): always a `vo_` `.wav` file under `output`. */
  function OutFileName(inFileName: string, voiceName: string, male: bool): (r: string)
    ensures |r| >= 14 && r[..10] == "output/vo_" && r[|r| - 4..] == ".wav"
  {
    var base := BaseName(FileNameWithoutExtension(inFileName), voiceName, male);
    UnderOutput(base);
    Combine(OutputDirectory, ChangeExtension(base, WaveExtension))
  }

  /**
   * With a voice name free of separators, the output is directly under `output`: no
   * separator follows `output/`. The input's stem never holds one.
   */
  lemma OutFileNameFlat(inFileName: string, voiceName: string, male: bool)
    requires Separator !in voiceName
    ensures var r := OutFileName(inFileName, voiceName, male); |r| >= 7 && Separator !in r[7..]
  {
    var stem := FileNameWithoutExtension(inFileName);
    assert Separator !in stem by {
      assert stem <= FileName(inFileName);
    }
    var base := BaseName(stem, voiceName, male);
    BaseNameFlat(stem, voiceName, male);
    ChangeExtensionFlat(base, WaveExtension);
    UnderOutput(base);
    var name := ChangeExtension(base, WaveExtension);
    assert (OutputDirectory + [Separator] + name)[7..] == name;
  }

  lemma BaseNameFlat(stem: string, voiceName: string, male: bool)
    requires Separator !in stem && Separator !in voiceName
    ensures Separator !in BaseName(stem, voiceName, male)
  {
    assert Separator !in SanitizeVoice(voiceName);
    assert Separator !in GenderSuffix(male);
  }

  /** ChangeExtension adds no separator of its own. */
  lemma ChangeExtensionFlat(path: string, ext: string)
    requires Separator !in path && Separator !in ext
    ensures Separator !in ChangeExtension(path, ext)
  {
    if path != [] {
      match ExtensionStart(path)
      case Some(j) =>
        assert path[..j] <= path;
      case None =>
    }
  }

  /** The renamed base sits under the output directory and keeps "vo_" and ".wav". */
  lemma UnderOutput(base: string)
    requires "vo_" <= base
    ensures var r := Combine(OutputDirectory, ChangeExtension(base, WaveExtension));
      |r| >= 14 && r[..10] == "output/vo_" && r[|r| - 4..] == ".wav"
    ensures Combine(OutputDirectory, ChangeExtension(base, WaveExtension)) == OutputDirectory + [Separator] + ChangeExtension(base, WaveExtension)
  {
    var name := ChangeExtension(base, WaveExtension);
    ChangeExtensionKeepsPrefix(base, "vo_", WaveExtension);
    assert name[0] == 'v';
    var r := Combine(OutputDirectory, name);
    assert r == "output/" + name;
    assert r[..10] == "output/" + name[..3];
    assert r[|r| - 4..] == name[|name| - 4..];
  }

  /** A leading part without '.' survives ChangeExtension. */
  lemma ChangeExtensionKeepsPrefix(path: string, lead: string, ext: string)
    requires lead <= path && '.' !in lead
    requires ext == [] || ext[0] != '.'
    ensures lead <= ChangeExtension(path, ext)
    ensures path != [] ==> |ChangeExtension(path, ext)| >= |lead| + 1 + |ext|
  {
    if path != [] {
      match ExtensionStart(path)
      case Some(j) =>
      case None =>
    }
  }

  /** A path that already ends in "." + `ext` is left as it is. */
  lemma ChangeExtensionKeeps(path: string, ext: string)
    requires '.' !in ext && Separator !in ext
    requires |path| > |ext| && path[|path| - |ext| - 1..] == "." + ext
    ensures ChangeExtension(path, ext) == path
  {
    var k := |path| - |ext| - 1;
    assert path[k] == '.' && path[k + 1..] == ext;
    ChangeExtensionCuts(path, k, ext);
    assert path[..k] + path[k..] == path;
  }

  /** Changing to the same extension twice is changing it once. */
  lemma ChangeExtensionIdempotent(path: string, ext: string)
    requires ext != [] && '.' !in ext && Separator !in ext
    ensures ChangeExtension(ChangeExtension(path, ext), ext) == ChangeExtension(path, ext)
  {
    var once := ChangeExtension(path, ext);
    if path != [] {
      ChangeExtensionKeeps(once, ext);
    } else {
      assert once == [];
    }
  }

  /** Without any '.', ChangeExtension appends the extension. */
  lemma ChangeExtensionAppends(path: string, ext: string)
    requires path != [] && '.' !in path
    requires ext == [] || ext[0] != '.'
    ensures ChangeExtension(path, ext) == path + "." + ext
  {
  }

  /** ChangeExtension cuts at the last '.' when no separator follows it. */
  lemma ChangeExtensionCuts(path: string, k: nat, ext: string)
    requires k < |path| && path[k] == '.'
    requires '.' !in path[k + 1..] && Separator !in path[k + 1..]
    requires ext == [] || ext[0] != '.'
    ensures ChangeExtension(path, ext) == path[..k] + "." + ext
  {
  }

  /** A '.' in the stem starts the extension: what follows it is cut away. */
  lemma RenameDotted(stem: string, voiceName: string, male: bool, j: nat)
    requires j < |stem| && stem[j] == '.' && '.' !in stem[j + 1..] && Separator !in stem
    requires '.' !in voiceName && Separator !in voiceName
    ensures ChangeExtension(BaseName(stem, voiceName, male), WaveExtension) == "vo_" + stem[..j] + ".wav"
  {
    var voice := SanitizeVoice(voiceName);
    var rest := "_" + voice + "_" + GenderSuffix(male);
    assert BaseName(stem, voiceName, male) == "vo_" + stem + rest;
    assert '.' !in voice && Separator !in voice;
    CutAtStemDot(stem, rest, j);
  }

  /** Renaming `vo_<stem><rest>` cuts at the last '.' of the stem when `rest` has no '.'. */
  lemma CutAtStemDot(stem: string, rest: string, j: nat)
    requires j < |stem| && stem[j] == '.' && '.' !in stem[j + 1..] && Separator !in stem
    requires '.' !in rest && Separator !in rest
    ensures ChangeExtension("vo_" + stem + rest, WaveExtension) == "vo_" + stem[..j] + ".wav"
  {
    SplitAtDot("vo_", stem, rest, j);
    ChangeExtensionCuts("vo_" + stem + rest, 3 + j, WaveExtension);
  }

  /** Where a character of the middle part of `a + m + z` sits, and what comes before and after it. */
  lemma SplitAtDot(a: string, m: string, z: string, j: nat)
    requires j < |m|
    ensures var s := a + m + z;
      && s[|a| + j] == m[j]
      && s[|a| + j + 1..] == m[j + 1..] + z
      && s[..|a| + j] == a + m[..j]
  {
  }

  /** A base built from a stem and a voice without '.' has no '.' either. */
  lemma BaseNameUndotted(stem: string, voiceName: string, male: bool)
    requires '.' !in stem && '.' !in voiceName
    ensures "vo_" <= BaseName(stem, voiceName, male) && '.' !in BaseName(stem, voiceName, male)
  {
    assert '.' !in SanitizeVoice(voiceName);
    assert '.' !in GenderSuffix(male);
  }

  /** An undotted base only gains ".wav" and the output directory. */
  lemma PlaceUndotted(base: string)
    requires "vo_" <= base && '.' !in base
    ensures Combine(OutputDirectory, ChangeExtension(base, WaveExtension)) == "output/" + base + ".wav"
  {
    ChangeExtensionAppends(base, WaveExtension);
    UnderOutput(base);
  }

  /** A short name without '.', joined to a stem without '.', keeps its `_m` / `_f` suffix. */
  lemma OutFileNameUndotted(inFileName: string, voiceName: string, male: bool)
    requires '.' !in FileNameWithoutExtension(inFileName)
    requires '.' !in voiceName
    ensures OutFileName(inFileName, voiceName, male) == "output/" + BaseName(FileNameWithoutExtension(inFileName), voiceName, male) + ".wav"
  {
    var base := BaseName(FileNameWithoutExtension(inFileName), voiceName, male);
    BaseNameUndotted(FileNameWithoutExtension(inFileName), voiceName, male);
    PlaceUndotted(base);
  }

  /** A base ends in `_m` or `_f`. */
  lemma BaseNameSuffix(stem: string, voiceName: string, male: bool)
    ensures var base := BaseName(stem, voiceName, male); |base| >= 2 && base[|base| - 2..] == "_" + GenderSuffix(male)
  {
  }

  /** The last two characters of a placed base come just before ".wav". */
  lemma PlacedEnd(base: string)
    requires |base| >= 2
    ensures var r := "output/" + base + ".wav"; r[|r| - 6..] == base[|base| - 2..] + ".wav"
  {
  }

  /** Then the name before ".wav" ends in `_m` for the male voice and `_f` for the female one. */
  lemma OutFileNameGenderSuffix(inFileName: string, voiceName: string, male: bool)
    requires '.' !in FileNameWithoutExtension(inFileName)
    requires '.' !in voiceName
    ensures var r := OutFileName(inFileName, voiceName, male); r[|r| - 6..] == "_" + GenderSuffix(male) + ".wav"
  {
    var base := BaseName(FileNameWithoutExtension(inFileName), voiceName, male);
    OutFileNameUndotted(inFileName, voiceName, male);
    BaseNameSuffix(FileNameWithoutExtension(inFileName), voiceName, male);
    PlacedEnd(base);
  }

  /** The file name of `dir/name` is `name`. */
  lemma {:induction false} FileNameOfJoin(dir: string, name: string)
    requires Separator !in name
    ensures FileName(dir + [Separator] + name) == name
  {
    if name == [] {
    } else {
      var init := name[..|name| - 1];
      FileNameOfJoin(dir, init);
      assert (dir + [Separator] + name)[..|dir + [Separator] + name| - 1] == dir + [Separator] + init;
    }
  }

  /** The stem of `dir/name` is `name` up to its last '.'. */
  lemma StemOfJoin(dir: string, name: string, k: nat)
    requires Separator !in name
    requires k < |name| && name[k] == '.' && '.' !in name[k + 1..]
    ensures FileNameWithoutExtension(dir + [Separator] + name) == name[..k]
  {
    FileNameOfJoin(dir, name);
  }

  /**
   * A '.' left in the stem (an input such as `a.b.txt`) is taken as the start of the
   * extension: everything after it, voice and gender suffix included, is dropped.
   */
  lemma OutFileNameDotted(inFileName: string, voiceName: string, male: bool, j: nat)
    requires j < |FileNameWithoutExtension(inFileName)| && FileNameWithoutExtension(inFileName)[j] == '.'
    requires '.' !in FileNameWithoutExtension(inFileName)[j + 1..]
    requires '.' !in voiceName && Separator !in voiceName
    ensures OutFileName(inFileName, voiceName, male) == "output/vo_" + FileNameWithoutExtension(inFileName)[..j] + ".wav"
  {
    var stem := FileNameWithoutExtension(inFileName);
    RenameDotted(stem, voiceName, male, j);
    PlaceRenamed(BaseName(stem, voiceName, male), stem[..j]);
  }

  /** A base renamed to `vo_<x>.wav` is placed at `output/vo_<x>.wav`. */
  lemma PlaceRenamed(base: string, x: string)
    requires "vo_" <= base
    requires ChangeExtension(base, WaveExtension) == "vo_" + x + ".wav"
    ensures Combine(OutputDirectory, ChangeExtension(base, WaveExtension)) == "output/vo_" + x + ".wav"
  {
    UnderOutput(base);
  }

  /** Male and female files of one input get different names when no '.' is in the way. */
  lemma MaleAndFemaleNamesDiffer(inFileName: string, voiceName: string)
    requires '.' !in FileNameWithoutExtension(inFileName) && '.' !in voiceName
    ensures OutFileName(inFileName, voiceName, true) != OutFileName(inFileName, voiceName, false)
  {
    OutFileNameUndotted(inFileName, voiceName, true);
    OutFileNameUndotted(inFileName, voiceName, false);
    var m := OutFileName(inFileName, voiceName, true);
    var f := OutFileName(inFileName, voiceName, false);
    assert m[|m| - 5] == 'm' && f[|f| - 5] == 'f';
  }

  /** With a dotted stem both genders are written to the same file. */
  lemma DottedStemNamesCollide(inFileName: string, voiceName: string, j: nat)
    requires j < |FileNameWithoutExtension(inFileName)| && FileNameWithoutExtension(inFileName)[j] == '.'
    requires '.' !in FileNameWithoutExtension(inFileName)[j + 1..]
    requires '.' !in voiceName && Separator !in voiceName
    ensures OutFileName(inFileName, voiceName, true) == OutFileName(inFileName, voiceName, false)
  {
    OutFileNameDotted(inFileName, voiceName, true, j);
    OutFileNameDotted(inFileName, voiceName, false, j);
  }

  /** A voice without ' ' or ',' is left as it is. */
  lemma {:induction false} SanitizeKeepsPlainVoice(voice: string)
    requires ' ' !in voice && ',' !in voice
    ensures SanitizeVoice(voice) == voice
  {
    if voice != [] {
      SanitizeKeepsPlainVoice(voice[1..]);
    }
  }

  /** Character facts about the literals of the two examples below. */
  lemma ExampleLiterals()
    ensures '.' !in "greeting" && '.' !in "GuyNeural" && Separator !in "GuyNeural" && '.' !in "b"
    ensures Separator !in "greeting.txt" && Separator !in "a.b.txt"
    ensures ' ' !in "GuyNeural" && ',' !in "GuyNeural"
  {
  }

  /** Slicing facts about the literals of the two examples below. */
  lemma ExampleSlices()
    ensures "greeting.txt"[8] == '.' && "greeting.txt"[9..] == "txt" && "greeting.txt"[..8] == "greeting"
    ensures "a.b.txt"[3] == '.' && "a.b.txt"[4..] == "txt" && "a.b.txt"[..3] == "a.b"
    ensures "a.b"[1] == '.' && "a.b"[2..] == "b" && "a.b"[..1] == "a"
    ensures "input/greeting.txt" == "input" + [Separator] + "greeting.txt"
    ensures "input/a.b.txt" == "input" + [Separator] + "a.b.txt"
  {
  }

  /** Spelling facts about the results of the two examples below. */
  lemma ExampleSpellings()
    ensures "output/" + ("vo_" + "greeting" + "_" + "GuyNeural" + "_" + "m") + ".wav" == "output/vo_greeting_GuyNeural_m.wav"
    ensures "output/vo_" + "a" + ".wav" == "output/vo_a.wav"
  {
  }

  /** The input `greeting.txt` with the voice `GuyNeural`, male. */
  lemma ExampleGreeting(inFileName: string, voice: string)
    requires inFileName == "input/greeting.txt" && voice == "GuyNeural"
    ensures OutFileName(inFileName, voice, true) == "output/vo_greeting_GuyNeural_m.wav"
  {
    var dir, name, stem := "input", "greeting.txt", "greeting";
    ExampleLiterals();
    ExampleSpellings();
    ExampleSlices();
    StemOfJoin(dir, name, 8);
    OutFileNameUndotted(inFileName, voice, true);
    SanitizeKeepsPlainVoice(voice);
    assert BaseName(stem, voice, true) == "vo_" + "greeting" + "_" + "GuyNeural" + "_" + "m";
  }

  /** The input `a.b.txt` loses everything after its first '.'. */
  lemma ExampleDottedInput(inFileName: string, voice: string)
    requires inFileName == "input/a.b.txt" && voice == "GuyNeural"
    ensures OutFileName(inFileName, voice, true) == "output/vo_a.wav"
  {
    var dir, name, stem := "input", "a.b.txt", "a.b";
    ExampleLiterals();
    ExampleSpellings();
    ExampleSlices();
    StemOfJoin(dir, name, 3);
    OutFileNameDotted(inFileName, voice, true, 1);
  }
}
