/** The part of `std::path` the repository session uses: a path's final
    component and its conversion to a string. */
module Paths {
  import opened Backend

  /** An `OsStr`: `to_str` yields its text only when it is valid Unicode. */
  datatype OsStr = Unicode(text: string) | NonUnicode

  /** One item of `Path::components()`, which already drops repeated separators,
      a trailing separator and inner `.` components. */
  datatype Component = RootDir | CurDir | ParentDir | Normal(name: OsStr)

  datatype Path = Path(components: seq<Component>)

  /** `Path::file_name`: the final component when it is a normal one; `None` for
      an empty path, the root, or a path ending in `..`. */
  function FileName(p: Path): (r: Option<OsStr>)
    ensures r.Some? <==> |p.components| > 0 && p.components[|p.components| - 1].Normal?
    ensures r.Some? ==> p.components[|p.components| - 1] == Normal(r.value)
  {
    if |p.components| == 0 then None
    else
      match p.components[|p.components| - 1]
      case Normal(name) => Some(name)
      case _ => None
  }

  /** `OsStr::to_str`. */
  function ToStr(s: OsStr): Option<string>
  {
    match s
    case Unicode(text) => Some(text)
    case NonUnicode => None
  }
}
