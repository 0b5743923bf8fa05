/** The launcher's registration identity and the registry keys and strings it
    derives from an extension and the launcher's own path. */
module LauncherKeys {
  import opened Names
  import opened Registry

  /** The one ProgID under which the launcher registers itself. */
  const ProgId: string := "SlicerLauncher.File"
  const Description: string := "3D Model File for Slicer Launcher"
  const FriendlyName: string := "3D Model File"

  const Classes: Path := ["Software", "Classes"]
  const FileExts: Path := ["Software", "Microsoft", "Windows", "CurrentVersion", "Explorer", "FileExts"]
  const ProgKey: Path := Classes + [ProgId]
  const IconKey: Path := ProgKey + ["DefaultIcon"]
  const CommandKey: Path := ProgKey + ["shell", "open", "command"]

  /** An extension as the launcher uses it: with a leading dot added when it
      has none. */
  function Normalize(ext: string): (r: string)
    ensures |r| > 0 && r[0] == '.'
    ensures r == ext || r == ['.'] + ext
    ensures |ext| > 0 && ext[0] == '.' ==> r == ext
  {
    if |ext| > 0 && ext[0] == '.' then ext else "." + ext
  }

  /** Normalizing twice is normalizing once. */
  lemma NormalizeIdempotent(ext: string)
    ensures Normalize(Normalize(ext)) == Normalize(ext)
  {
  }

  /** Normalize only ever adds in front: the extension as configured is what
      follows. */
  lemma NormalizeKeepsSuffix(ext: string)
    ensures Normalize(ext)[|Normalize(ext)| - |ext|..] == ext
  {
  }

  predicate IsNormalized(ext: string)
  {
    |ext| > 0 && ext[0] == '.'
  }

  /** Software\Classes\<ext> */
  function ExtKey(ext: string): Path
  {
    Classes + Split(ext)
  }

  /** Software\Classes\<ext>\OpenWithProgids */
  function OpenWithKey(ext: string): Path
  {
    ExtKey(ext) + ["OpenWithProgids"]
  }

  /** Software\Microsoft\Windows\CurrentVersion\Explorer\FileExts\<ext>\OpenWithProgids */
  function UserChoiceKey(ext: string): Path
  {
    FileExts + Split(ext) + ["OpenWithProgids"]
  }

  /** The icon reference: the first icon resource of the launcher's executable. */
  function IconValue(app: string): (r: string)
    ensures |r| == |app| + 2 && r[..|app|] == app && r[|app|..] == ",0"
  {
    app + ",0"
  }

  /** The shell open command: the quoted launcher path, then the quoted "%1"
      placeholder the shell replaces with the file being opened. */
  function CommandValue(app: string): (r: string)
    ensures |r| == |app| + 7
    ensures r[0] == '"' && r[1..|app| + 1] == app && r[|app| + 1..] == "\" \"%1\""
  {
    "\"" + app + "\" \"%1\""
  }

  /** Where the keys of a normalized extension sit: its class keys are under
      Software\Classes, as is the ProgID, but under a first segment that starts
      with a dot, which the ProgID's does not; its FileExts key is elsewhere. */
  lemma KeyShapes(ext: string)
    requires IsNormalized(ext)
    ensures |ExtKey(ext)| >= 3 && ExtKey(ext)[..2] == Classes
    ensures |ExtKey(ext)[2]| > 0 && ExtKey(ext)[2][0] == '.'
    ensures |OpenWithKey(ext)| >= 4 && OpenWithKey(ext)[..2] == Classes
    ensures OpenWithKey(ext)[2] == ExtKey(ext)[2]
    ensures |UserChoiceKey(ext)| >= 2 && UserChoiceKey(ext)[1] == "Microsoft"
    ensures !IsPrefix(ProgKey, ExtKey(ext)) && !IsPrefix(ProgKey, OpenWithKey(ext))
    ensures !IsPrefix(ProgKey, UserChoiceKey(ext))
  {
    SplitHead(ext);
    assert ExtKey(ext)[2] == Split(ext)[0];
    assert OpenWithKey(ext)[2] == Split(ext)[0];
    assert ProgKey[2] == ProgId;
    assert UserChoiceKey(ext)[1] == "Microsoft";
  }

  /** The keys of two normalized extensions coincide only when the extensions do. */
  lemma ExtKeyInjective(a: string, b: string)
    requires ExtKey(a) == ExtKey(b)
    ensures a == b
  {
    assert Split(a) == ExtKey(a)[2..];
    SplitInjective(a, b);
  }
}
