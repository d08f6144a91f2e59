// What several components use.
module Common {
  datatype Option<+T> = None | Some(value: T)

  function Elements<T>(s: seq<T>): set<T> {
    set x | x in s
  }

  function Reversed<T>(s: seq<T>): (r: seq<T>)
    ensures |r| == |s|
    ensures forall i :: 0 <= i < |s| ==> r[i] == s[|s| - 1 - i]
  {
    if s == [] then [] else Reversed(s[1..]) + [s[0]]
  }

  // Where the last component of a path begins.
  function LastSlash(path: string): (n: nat)
    ensures n <= |path|
  {
    if path == [] then 0
    else if path[|path| - 1] == '/' then |path|
    else LastSlash(path[..|path| - 1])
  }

  lemma {:induction false} NoSlashInName(dir: string, name: string)
    requires '/' !in name
    ensures LastSlash(dir + "/" + name) == |dir| + 1
  {
    var path := dir + "/" + name;
    if name != "" {
      assert path[..|path| - 1] == dir + "/" + name[..|name| - 1];
      NoSlashInName(dir, name[..|name| - 1]);
    }
  }
}
