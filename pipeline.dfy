/**
 * The run-level decisions of extract_forensic_pcap.py: locating tshark, the
 * exit-code rules of the two tshark invocations, and the order in which
 * `main` gives up before the extracted rows are read. The file system and the
 * `PATH` lookup are parameters: `isFile` stands for `os.path.isfile`,
 * `expandUser` for `os.path.expanduser`, `which` for the result of
 * `shutil.which("tshark")`.
 */
module Pipeline {
  import opened Wrappers

  const DefaultTsharkPaths: seq<string> := [
    "C:\\Program Files\\Wireshark\\tshark.exe",
    "C:\\Program Files (x86)\\Wireshark\\tshark.exe",
    "/usr/bin/tshark",
    "/usr/local/bin/tshark",
    "/snap/bin/tshark"
  ]

  /** Python truthiness of an optional path: neither `None` nor "". */
  predicate Given(path: Option<string>) {
    path.Some? && path.value != ""
  }

  /** `paths[k]` is the first entry of `paths` that is an existing file. */
  predicate FirstExisting(paths: seq<string>, isFile: string -> bool, k: int) {
    0 <= k < |paths| && isFile(paths[k]) && forall j :: 0 <= j < k ==> !isFile(paths[j])
  }

  /**
   * `find_tshark` (extract_forensic_pcap.py:58-75). A given path is checked as
   * written and then `~`-expanded, and nothing else is tried; otherwise the
   * `PATH` lookup wins, and after it the first existing default location.
   */
  method FindTshark(provided: Option<string>, which: Option<string>,
                    isFile: string -> bool, expandUser: string -> string)
    returns (tool: Option<string>)
    ensures Given(provided) ==>
      var p := provided.value;
      tool == if isFile(p) then Some(p) else if isFile(expandUser(p)) then Some(expandUser(p)) else None
    ensures !Given(provided) && Given(which) ==> tool == which
    ensures !Given(provided) && !Given(which) ==>
      && (tool.None? <==> forall j :: 0 <= j < |DefaultTsharkPaths| ==> !isFile(DefaultTsharkPaths[j]))
      && (forall k :: FirstExisting(DefaultTsharkPaths, isFile, k) ==> tool == Some(DefaultTsharkPaths[k]))
  {
    if Given(provided) {
      var p := provided.value;
      if isFile(p) {
        return Some(p);
      }
      var expanded := expandUser(p);
      if isFile(expanded) {
        return Some(expanded);
      }
      return None;
    }
    if Given(which) {
      return which;
    }
    var i := 0;
    while i < |DefaultTsharkPaths|
      invariant 0 <= i <= |DefaultTsharkPaths|
      invariant forall j :: 0 <= j < i ==> !isFile(DefaultTsharkPaths[j])
    {
      var p := DefaultTsharkPaths[i];
      if isFile(p) {
        assert FirstExisting(DefaultTsharkPaths, isFile, i);
        return Some(p);
      }
      i := i + 1;
    }
    return None;
  }

  /** `run_tshark_extract` accepts exit code 1 (warnings) besides 0 (line 126). */
  predicate ExtractionAccepted(returnCode: int)
    ensures returnCode == 1 ==> ExtractionAccepted(returnCode)
    ensures returnCode < 0 || returnCode > 1 ==> !ExtractionAccepted(returnCode)
  {
    returnCode == 0 || returnCode == 1
  }

  /** The filter run must exit with 0 and leave its output file behind (lines 177-182). */
  predicate FilterAccepted(returnCode: int, outputExists: bool)
    ensures FilterAccepted(returnCode, outputExists) ==> returnCode == 0
    ensures !outputExists ==> !FilterAccepted(returnCode, outputExists)
  {
    returnCode == 0 && outputExists
  }

  /** Where a run stops before the extracted rows are read. */
  datatype Failure = CaptureNotFound | ToolNotFound | FilterFailed | FilteredCaptureMissing | ExtractionFailed

  datatype Progress = Stopped(failure: Failure) | Extracted(tool: string)

  /**
   * The checks of `main` in order (lines 153-162, 177-182, 189 with 126-127):
   * the capture must exist, tshark must be found, the filter run must succeed
   * and leave its output, and the extraction run must end with 0 or 1.
   */
  function Preflight(captureExists: bool, tool: Option<string>, filterCode: int,
                     filteredExists: bool, extractCode: int): (p: Progress)
    ensures p.Extracted? <==>
      captureExists && Given(tool) && FilterAccepted(filterCode, filteredExists) && ExtractionAccepted(extractCode)
    ensures p.Extracted? ==> p.tool == tool.value
    ensures p == Stopped(CaptureNotFound) <==> !captureExists
    ensures p == Stopped(ToolNotFound) <==> captureExists && !Given(tool)
    ensures p == Stopped(FilterFailed) <==> captureExists && Given(tool) && filterCode != 0
    ensures p == Stopped(FilteredCaptureMissing) <==>
      captureExists && Given(tool) && filterCode == 0 && !filteredExists
    ensures p == Stopped(ExtractionFailed) <==>
      captureExists && Given(tool) && FilterAccepted(filterCode, filteredExists) && !ExtractionAccepted(extractCode)
  {
    if !captureExists then Stopped(CaptureNotFound)
    else if !Given(tool) then Stopped(ToolNotFound)
    else if filterCode != 0 then Stopped(FilterFailed)
    else if !filteredExists then Stopped(FilteredCaptureMissing)
    else if !ExtractionAccepted(extractCode) then Stopped(ExtractionFailed)
    else Extracted(tool.value)
  }
}
