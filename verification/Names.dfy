/** The files of the vault's backend. A file is addressed by a `Name`, and `PathOf` is
    the path the vault uses for it; names and paths correspond one to one. */
module Names {
  import opened Crypto

  datatype Name =
    | IdentityFile
    | VersionFile
    | RecoveryFile
    | RecoverySumFile
    | MetadataFile(id: Uuid)
    | ValueFile(id: Uuid)
    | BackupFile(id: Uuid, stamp: string)
    | OtherFile(path: string)

  function PathOf(name: Name): string {
    match name
    case IdentityFile => ".identity"
    case VersionFile => ".version"
    case RecoveryFile => ".recovery"
    case RecoverySumFile => ".recovery.sum"
    case MetadataFile(id) => id.text + ".json"
    case ValueFile(id) => id.text + ".age"
    case BackupFile(id, stamp) => ".bak/" + id.text + "." + stamp + ".json"
    case OtherFile(path) => path
  }

  /** `OtherFile` is only for paths the vault itself never uses. */
  ghost predicate Canonical(name: Name) {
    name.OtherFile? ==> forall n: Name :: !n.OtherFile? ==> PathOf(n) != name.path
  }

  /** Names the vault itself uses are told apart by their paths. */
  lemma VaultPathsAreInjective(n: Name, n': Name)
    requires !n.OtherFile? && !n'.OtherFile? && PathOf(n) == PathOf(n')
    ensures n == n'
  {
    match n {
      case IdentityFile => assert PathOf(n)[1] == 'i';
      case VersionFile => assert PathOf(n)[1] == 'v';
      case RecoveryFile => assert PathOf(n)[1] == 'r';
      case RecoverySumFile =>
      case MetadataFile(id) =>
        assert PathOf(n)[..36] == id.text;
        if n'.MetadataFile? { assert PathOf(n')[..36] == n'.id.text; }
      case ValueFile(id) =>
        assert PathOf(n)[..36] == id.text;
        if n'.ValueFile? { assert PathOf(n')[..36] == n'.id.text; }
      case BackupFile(id, stamp) =>
        assert PathOf(n)[5..41] == id.text && PathOf(n)[42..|PathOf(n)| - 5] == stamp;
        if n'.BackupFile? {
          assert PathOf(n')[5..41] == n'.id.text && PathOf(n')[42..|PathOf(n')| - 5] == n'.stamp;
        }
    }
  }

  /** Paths and canonical names correspond one to one. */
  lemma NamesArePaths(path: string)
    ensures exists n :: Canonical(n) && PathOf(n) == path
    ensures forall n, n' :: Canonical(n) && Canonical(n') && PathOf(n) == path == PathOf(n') ==> n == n'
  {
    if n: Name :| !n.OtherFile? && PathOf(n) == path {
      assert Canonical(n);
    } else {
      assert Canonical(OtherFile(path)) && PathOf(OtherFile(path)) == path;
    }
    forall n, n' | Canonical(n) && Canonical(n') && PathOf(n) == path == PathOf(n') ensures n == n' {
      if !n.OtherFile? && !n'.OtherFile? {
        VaultPathsAreInjective(n, n');
      }
    }
  }

  // ------------------------------------------------------------- listings

  /** Paths `ListFiles("")` returns. */
  predicate IsRoot(path: string) { '/' !in path }

  /** The part of `name` from its last dot on, or nothing. */
  function Extension(name: string): string {
    if name == [] then ""
    else if name[|name| - 1] == '.' then "."
    else if name[|name| - 1] == '/' || Extension(name[..|name| - 1]) == "" then ""
    else Extension(name[..|name| - 1]) + [name[|name| - 1]]
  }

  lemma {:induction false} ExtensionIsSuffix(name: string)
    ensures |Extension(name)| <= |name| && name[|name| - |Extension(name)|..] == Extension(name)
  {
    if name != [] && name[|name| - 1] != '.' && name[|name| - 1] != '/' {
      ExtensionIsSuffix(name[..|name| - 1]);
    }
  }

  lemma ExtensionOfJson(stem: string)
    ensures Extension(stem + ".json") == ".json"
  {
    var s := stem + ".json";
    assert s[..|s| - 1] == stem + ".jso";
    assert (stem + ".jso")[..|stem| + 3] == stem + ".js";
    assert (stem + ".js")[..|stem| + 2] == stem + ".j";
    assert (stem + ".j")[..|stem| + 1] == stem + ".";
    assert Extension(stem + ".") == ".";
    assert Extension(stem + ".j") == ".j";
    assert Extension(stem + ".js") == ".js";
    assert Extension(stem + ".jso") == ".jso";
  }

  /** The files taken for metadata. */
  predicate IsMetadataName(name: Name) {
    match name
    case MetadataFile(_) => true
    case OtherFile(path) => IsRoot(path) && Extension(path) == ".json"
    case _ => false
  }

  /** A file is taken for metadata exactly when it is listed and its extension is `.json`. */
  lemma MetadataNamesAreListedJsonFiles(name: Name)
    ensures IsMetadataName(name) <==> IsRoot(PathOf(name)) && Extension(PathOf(name)) == ".json"
  {
    var path := PathOf(name);
    match name {
      case MetadataFile(id) => ExtensionOfJson(id.text);
      case BackupFile(_, _) => assert path[4] == '/';
      case OtherFile(_) =>
      case ValueFile(_) => ExtensionIsSuffix(path); assert path[|path| - 1] == 'e';
      case _ =>
        ExtensionIsSuffix(path);
        assert path[|path| - 1] in {'y', 'n', 'm'};
    }
  }
}
