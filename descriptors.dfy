/**
 * The Python wrapper `image_selector` (image_selector/__init__.py): it turns
 * each input entry into an image descriptor `{name, src}`, hands the list
 * to the frontend, and returns the selection the frontend reported, or []
 * before any interaction.
 */
module Descriptors {
  import opened Wrappers

  /**
   * One element of `input_files`, seen through the two tests the wrapper
   * makes: the value of its `name` attribute when it has one, and its text
   * when it is a `str` (a `str` subclass may have both). `contents` are the
   * bytes the image decoder reads from the entry.
   */
  datatype InputFile = InputFile(nameAttr: Option<string>, pathString: Option<string>, contents: seq<bv8>)

  /** `{"name": name, "src": src}` */
  datatype Descriptor = Descriptor(name: string, src: string)

  datatype Error = ValueError(message: string)

  const InvalidInputFiles: Error := ValueError("Invalid input_files.")

  /** The fixed head of every `src`; note the space after the comma. */
  const JpegDataUriPrefix: string := "data:image/jpeg;base64, "

  /** The value the component returns before the user has interacted with it. */
  const DefaultValue: seq<nat> := []

  /** `r` is the part of `p` after its last '/', or all of `p` when it has none. */
  ghost predicate IsBasename(p: string, r: string) {
    |r| <= |p| && r == p[|p| - |r|..] && '/' !in r &&
    (|r| < |p| ==> p[|p| - |r| - 1] == '/')
  }

  /** `os.path.basename` with the POSIX separator. */
  function Basename(p: string): (r: string)
    ensures IsBasename(p, r)
    ensures p != [] && p[|p| - 1] == '/' ==> r == []
  {
    if p == [] then []
    else if p[|p| - 1] == '/' then []
    else Basename(p[..|p| - 1]) + [p[|p| - 1]]
  }

  /** Basename is the one and only string that IsBasename describes. */
  lemma BasenameUnique(p: string, r: string)
    ensures IsBasename(p, r) <==> r == Basename(p)
  {
  }

  /**
   * The name rule of the loop: the `name` attribute first, else the basename
   * of a string path, else ValueError.
   */
  function ResolveName(f: InputFile): (r: Result<string, Error>)
    ensures r.Err? <==> f.nameAttr.None? && f.pathString.None?
    ensures r.Err? ==> r.error == InvalidInputFiles
    ensures f.nameAttr.Some? ==> r == Ok(f.nameAttr.value)
    ensures f.nameAttr.None? && r.Ok? ==> IsBasename(f.pathString.value, r.value)
  {
    match f.nameAttr
    case Some(n) => Ok(n)
    case None =>
      match f.pathString
      case Some(p) => Ok(Basename(p))
      case None => Err(InvalidInputFiles)
  }

  /**
   * `_encode_file`: the data URI of the entry's thumbnail. `payload` stands
   * for decoding, thumbnailing to 256x256, saving as JPEG and base64
   * encoding; being a function, it gives equal results on equal contents.
   */
  function EncodeFile(payload: seq<bv8> -> string, f: InputFile): (src: string)
    ensures |src| == |JpegDataUriPrefix| + |payload(f.contents)|
    ensures src[..|JpegDataUriPrefix|] == JpegDataUriPrefix
    ensures src[|JpegDataUriPrefix|..] == payload(f.contents)
  {
    JpegDataUriPrefix + payload(f.contents)
  }

  /** The descriptor of one entry that ResolveName accepts. */
  ghost predicate Describes(payload: seq<bv8> -> string, f: InputFile, d: Descriptor) {
    ResolveName(f).Ok? && d == Descriptor(ResolveName(f).value, EncodeFile(payload, f))
  }

  /** The loop that builds `images`; it raises on the first entry it cannot name. */
  method BuildDescriptors(inputFiles: seq<InputFile>, payload: seq<bv8> -> string)
    returns (r: Result<seq<Descriptor>, Error>)
    ensures r.Ok? <==> forall i :: 0 <= i < |inputFiles| ==> ResolveName(inputFiles[i]).Ok?
    ensures r.Ok? ==> |r.value| == |inputFiles|
    ensures r.Ok? ==> forall i :: 0 <= i < |inputFiles| ==> Describes(payload, inputFiles[i], r.value[i])
    ensures r.Err? ==> r.error == InvalidInputFiles
  {
    var images: seq<Descriptor> := [];
    for k := 0 to |inputFiles|
      invariant |images| == k
      invariant forall i :: 0 <= i < k ==> Describes(payload, inputFiles[i], images[i])
    {
      var file := inputFiles[k];
      var name :- ResolveName(file);
      images := images + [Descriptor(name, EncodeFile(payload, file))];
    }
    return Ok(images);
  }

  /**
   * `image_selector(input_files)`. `reported` is the value the frontend last
   * passed to `setComponentValue` for this instance, None before any
   * interaction; it is returned unchanged, or the default [] when absent.
   */
  method ImageSelector(inputFiles: seq<InputFile>, payload: seq<bv8> -> string, reported: Option<seq<nat>>)
    returns (r: Result<seq<nat>, Error>)
    ensures r.Ok? <==> forall i :: 0 <= i < |inputFiles| ==> ResolveName(inputFiles[i]).Ok?
    ensures r.Err? ==> r.error == InvalidInputFiles
    ensures r.Ok? && reported.Some? ==> r.value == reported.value
    ensures r.Ok? && reported.None? ==> r.value == []
  {
    var images :- BuildDescriptors(inputFiles, payload);
    var componentValue := match reported case Some(v) => v case None => DefaultValue;
    return Ok(componentValue);
  }
}
