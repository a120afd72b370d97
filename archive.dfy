/** Archive entries and the archive file as the editor sees it. */
module Archives {
  import opened Wrappers
  import opened JavaStrings

  /** An entry's bytes, as an opaque token: `NoData` for a zero-length
      directory marker, `Data(source)` for the content some writer produced. */
  datatype Body = NoData | Data(source: nat)

  /** A `ZipEntry`: its name, its bytes and its modification time. */
  datatype Entry = Entry(name: string, body: Body, time: int)

  /** What opening the archive file finds: no file, a file that is not a
      valid zip archive, or an archive with its entries in stored order. */
  datatype ArchiveFile = Missing | Corrupt | Zip(entries: seq<Entry>)

  /** The entries a `ZipFile` enumerates; a missing or corrupt file reads as
      an empty archive. */
  function EntriesOf(file: ArchiveFile): seq<Entry>
  {
    if file.Zip? then file.entries else []
  }

  /** The first entry stored under `name`. */
  function FirstNamed(es: seq<Entry>, name: string): (r: Option<Entry>)
    ensures r.None? <==> forall i :: 0 <= i < |es| ==> es[i].name != name
    ensures r.Some? ==> exists i :: 0 <= i < |es| && es[i] == r.value && es[i].name == name
                          && forall j :: 0 <= j < i ==> es[j].name != name
  {
    if es == [] then None
    else if es[0].name == name then Some(es[0])
    else
      var r := FirstNamed(es[1..], name);
      assert r.Some? ==> exists i :: 1 <= i < |es| && es[i] == r.value && es[i].name == name
                          && forall j :: 0 <= j < i ==> es[j].name != name
      by {
        if r.Some? {
          var i :| 0 <= i < |es[1..]| && es[1..][i] == r.value && es[1..][i].name == name
                   && forall j :: 0 <= j < i ==> es[1..][j].name != name;
          assert es[i + 1] == r.value;
          forall j | 0 <= j < i + 1 ensures es[j].name != name {
            if j > 0 { assert es[j] == es[1..][j - 1]; }
          }
        }
      }
      r
  }

  /** `zipFile.getEntry(name)`: the entry stored under `name`, or failing
      that, for a nonempty name not ending in '/', the entry stored under
      `name + "/"`. */
  function GetEntry(es: seq<Entry>, name: string): (r: Option<Entry>)
    ensures r.Some? ==> r.value in es
                        && (r.value.name == name || (r.value.name == name + "/" && name != [] && name[|name| - 1] != '/'))
    ensures (exists i :: 0 <= i < |es| && es[i].name == name) ==> r.Some? && r.value.name == name
    ensures r.None? <==> (forall i :: 0 <= i < |es| ==> es[i].name != name)
                         && (name == [] || name[|name| - 1] == '/' || forall i :: 0 <= i < |es| ==> es[i].name != name + "/")
  {
    var exact := FirstNamed(es, name);
    if exact.Some? then exact
    else if name != [] && name[|name| - 1] != '/' then FirstNamed(es, name + "/")
    else None
  }

  /** Entry names strictly ascend, as they do in an archive this editor wrote. */
  ghost predicate NamesAscending(es: seq<Entry>)
  {
    forall a, b :: 0 <= a < b < |es| ==> Less(es[a].name, es[b].name)
  }

  /** No two entries share a name. */
  ghost predicate DistinctNames(es: seq<Entry>)
  {
    forall a, b :: 0 <= a < b < |es| ==> es[a].name != es[b].name
  }
}
