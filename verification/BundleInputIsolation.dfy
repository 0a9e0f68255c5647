/** The memoised lookup of the package that owns a directory. */
module BundleInputIsolation {
  import opened Wrappers

  // A directory is its list of components; the file system root is the empty list.
  type Directory = seq<string>

  // What the package.json of a directory holds; directories without one are not in the map.
  datatype Manifest = Malformed | Nameless | Named(name: string)
  type FileSystem = map<Directory, Manifest>

  datatype Answer = Answer(name: Option<string>) | Throws

  function Parent(directory: Directory): Directory {
    if directory == [] then [] else directory[..|directory| - 1]
  }

  /** The directories from `directory` up to the root, nearest first. */
  function Upwards(directory: Directory): seq<Directory> {
    if directory == [] then [directory] else [directory] + Upwards(Parent(directory))
  }

  /** The first manifest on the way up that is malformed or has a name decides. */
  function Deciding(files: FileSystem, directories: seq<Directory>): Answer {
    if directories == [] then Answer(None)
    else
      var d := directories[0];
      if d in files && files[d].Malformed? then Throws
      else if d in files && files[d].Named? then Answer(Some(files[d].name))
      else Deciding(files, directories[1..])
  }

  function Owner(files: FileSystem, directory: Directory): Answer {
    Deciding(files, Upwards(directory))
  }

  lemma OwnerStep(files: FileSystem, directory: Directory)
    ensures Owner(files, directory) ==
            if directory in files && files[directory].Malformed? then Throws
            else if directory in files && files[directory].Named? then Answer(Some(files[directory].name))
            else if directory == [] then Answer(None)
            else Owner(files, Parent(directory))
  {
    if directory == [] {
      var up := Upwards(directory);
      assert up == [directory] && up[0] == directory && up[1..] == [];
      assert Deciding(files, up[1..]) == Answer(None);
    } else {
      assert Upwards(directory)[1..] == Upwards(Parent(directory));
    }
  }

  /** The nearest decisive manifest on the way up answers, and only if there is none the answer
      is that no package owns the directory. */
  lemma {:induction false} OwnerIsNearest(files: FileSystem, directory: Directory) returns (at: nat)
    ensures at <= |directory|
    ensures forall k :: at < k <= |directory| ==> directory[..k] !in files || files[directory[..k]].Nameless?
    ensures Owner(files, directory) == Throws <==> directory[..at] in files && files[directory[..at]].Malformed?
    ensures forall name :: Owner(files, directory) == Answer(Some(name)) <==>
              directory[..at] in files && files[directory[..at]] == Named(name)
    ensures Owner(files, directory) == Answer(None) ==> at == 0
    decreases |directory|
  {
    OwnerStep(files, directory);
    at := |directory|;
    assert directory[..at] == directory;
    if directory != [] && (directory !in files || files[directory].Nameless?) {
      at := OwnerIsNearest(files, Parent(directory));
      forall k | 0 <= k < |directory| ensures Parent(directory)[..k] == directory[..k] {
      }
    }
  }

  class PackageNames {
    var packages: map<Directory, Option<string>>

    /** Everything remembered is what a fresh lookup in these files would find. */
    ghost predicate Valid(files: FileSystem)
      reads this
    {
      forall d :: d in packages ==> Owner(files, d) == Answer(packages[d])
    }

    constructor ()
      ensures packages == map[] && forall files :: Valid(files)
    {
      packages := map[];
    }

    /** After a reset the memo fits any files, so a rebuild may start from changed ones. */
    method Reset()
      modifies this
      ensures packages == map[] && forall files :: Valid(files)
    {
      packages := map[];
    }

    /** A memoised answer is never different from a fresh one, whatever was asked before; a
        lookup that throws remembers nothing, one that answers remembers its directory and every
        directory it went through. */
    method PackageName(files: FileSystem, directory: Directory) returns (answer: Answer)
      requires Valid(files)
      modifies this
      ensures Valid(files) && answer == Owner(files, directory)
      ensures forall d :: d in old(packages) ==> d in packages && packages[d] == old(packages)[d]
      ensures answer.Throws? ==> packages == old(packages)
      ensures answer.Answer? ==> directory in packages && packages[directory] == answer.name
      ensures answer.Answer? && directory !in old(packages) && directory != [] ==>
                (directory in files && files[directory].Named?) || Parent(directory) in packages
      ensures forall d :: d in packages && d !in old(packages) ==> d in Upwards(directory)
      decreases |directory|
    {
      if directory in packages {
        return Answer(packages[directory]);
      }
      OwnerStep(files, directory);
      var name := None;
      if directory in files {
        if files[directory].Malformed? {
          return Throws;
        }
        if files[directory].Named? {
          name := Some(files[directory].name);
        }
      }
      if name.None? && directory != [] {
        var above := PackageName(files, Parent(directory));
        if above.Throws? {
          return Throws;
        }
        name := above.name;
      }
      packages := packages[directory := name];
      return Answer(name);
    }
  }
}
