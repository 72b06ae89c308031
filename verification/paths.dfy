/**
 * Joining a directory and a relative name with one slash, the way Go's path.Join does for
 * already-clean arguments. Clean's removal of "." and ".." elements and of repeated slashes
 * inside an argument is not modelled.
 */
module Paths {

  predicate EndsWithSlash(s: string) {
    |s| > 0 && s[|s| - 1] == '/'
  }

  function JoinPath(dir: string, name: string): (p: string)
    ensures dir == "" ==> p == name
    ensures name == "" ==> p == dir
    ensures dir != "" && name != "" ==>
              |p| > |name| && p[|p| - |name|..] == name && p[|p| - |name| - 1] == '/'
    ensures EndsWithSlash(dir) ==> p == dir + name
    ensures dir != "" && name != "" && !EndsWithSlash(dir) ==> |p| == |dir| + 1 + |name| && p[..|dir|] == dir
  {
    if dir == "" then name
    else if name == "" then dir
    else if EndsWithSlash(dir) then dir + name
    else dir + "/" + name
  }
}
