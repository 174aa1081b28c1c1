/** The main process's IPC handlers over one project. The module-level
    variables `projectFolder` and `deleteFileName` are fields of
    `MainProcess`; so are the two things the handlers reach through the
    file system: the set of file names in the project folder, and the
    sidecar file `images.xml` (None while it does not exist, otherwise the
    record array it holds, already parsed). Each handler is a method; the
    messages it sends back to the window are its out-parameters. */
module ProjectStore {
  import opened Optional
  import opened ImageRecords
  import opened Ordering

  /** `response && deleteFileName`: the dialog answered yes and a non-empty
      name is pending. */
  predicate ConfirmFires(response: bool, pending: Option<string>) {
    response && pending.Some? && pending.value != ""
  }

  class MainProcess {
    var projectFolder: Option<string>
    var files: set<string>
    var sidecar: Option<seq<Record>>
    var deleteFileName: Option<string>

    /** A chosen project folder is a non-empty path; before one is chosen
        there is no folder content to speak of. */
    ghost predicate Valid()
      reads this
    {
      && (projectFolder.Some? ==> projectFolder.value != "")
      && (projectFolder.None? ==> files == {} && sidecar.None?)
    }

    /** The records `updateXML` starts from: the sidecar's, or none. */
    function Stored(): (s: seq<Record>)
      reads this
    {
      if sidecar.Some? then sidecar.value else []
    }

    /** Every stored record has its image file in the folder. */
    predicate Synced()
      reads this
    {
      AllIn(Stored(), files)
    }

    /** No two stored records share a name. */
    predicate Distinct()
      reads this
    {
      NamesDistinct(Stored())
    }

    constructor ()
      ensures Valid()
      ensures projectFolder == None && files == {} && sidecar == None && deleteFileName == None
    {
      projectFolder, files, sidecar, deleteFileName := None, {}, None, None;
    }

    /** The "Neues Projekt" menu entry when the dialog is not cancelled:
        `folder` becomes the project, seen with its current content. */
    method SelectProject(folder: string, folderFiles: set<string>, folderSidecar: Option<seq<Record>>)
      requires Valid() && folder != ""
      modifies this
      ensures Valid()
      ensures projectFolder == Some(folder) && files == folderFiles && sidecar == folderSidecar
      ensures deleteFileName == old(deleteFileName)
    {
      projectFolder, files, sidecar := Some(folder), folderFiles, folderSidecar;
    }

    /** `updateXML(fileName, update)`: read the records, merge the update into
        the first record of that name or append a default record, and write
        the whole array back (creating the sidecar if it was absent). */
    method UpdateXml(fileName: string, update: Option<Patch>)
      requires Valid() && projectFolder.Some?
      modifies this
      ensures Valid()
      ensures sidecar == Some(Upsert(old(Stored()), fileName, update))
      ensures projectFolder == old(projectFolder) && files == old(files)
      ensures deleteFileName == old(deleteFileName)
    {
      var images: seq<Record> := [];
      if sidecar.Some? {
        images := sidecar.value;
      }
      var index := FindIndex(images, fileName);
      if index != -1 && update.Some? {
        images := images[index := Merge(images[index], update.value)];
      } else if index == -1 {
        images := images + [DefaultRecord(fileName)];
      }
      sidecar := Some(images);
    }

    /** `file-dropped`: with a project open and the copy into the folder
        succeeding (`copyOk`), the file joins the folder, `updateXML` records
        it, and the window is told (`reply`). Otherwise nothing happens. */
    method FileDropped(fileName: string, copyOk: bool) returns (reply: Option<string>)
      requires Valid()
      modifies this
      ensures Valid()
      ensures old(projectFolder).None? || !copyOk ==> unchanged(this) && reply == None
      ensures old(projectFolder).Some? && copyOk ==>
        && files == old(files) + {fileName}
        && sidecar == Some(Upsert(old(Stored()), fileName, None))
        && reply == Some(fileName)
      ensures projectFolder == old(projectFolder) && deleteFileName == old(deleteFileName)
      ensures old(Synced()) ==> Synced()
      ensures old(Distinct()) ==> Distinct()
    {
      reply := None;
      if projectFolder.Some? && copyOk {
        files := files + {fileName};
        UpdateXml(fileName, None);
        reply := Some(fileName);
      }
    }

    /** `update-image`: `updateXML(image.file, image)`. */
    method UpdateImage(fileName: string, patch: Patch)
      requires Valid() && projectFolder.Some?
      modifies this
      ensures Valid()
      ensures sidecar == Some(Upsert(old(Stored()), fileName, Some(patch)))
      ensures projectFolder == old(projectFolder) && files == old(files)
      ensures deleteFileName == old(deleteFileName)
      ensures old(Synced()) && fileName in files ==> Synced()
      ensures old(Distinct()) ==> Distinct()
    {
      UpdateXml(fileName, Some(patch));
    }

    /** `load-images`: when the sidecar exists, drop the records whose file
        is gone, write the rest back and send them (`loaded`); when it does
        not, do nothing and send nothing. */
    method LoadImages() returns (loaded: Option<seq<Record>>)
      requires Valid() && projectFolder.Some?
      modifies this
      ensures Valid()
      ensures old(sidecar).None? ==> unchanged(this) && loaded == None
      ensures old(sidecar).Some? ==>
        sidecar == Some(Reconcile(old(sidecar).value, files)) && loaded == sidecar
      ensures projectFolder == old(projectFolder) && files == old(files)
      ensures deleteFileName == old(deleteFileName)
      ensures Synced()
      ensures old(Distinct()) ==> Distinct()
    {
      loaded := None;
      if sidecar.Some? {
        var images := Reconcile(sidecar.value, files);
        ReconcileIsSubsequence(sidecar.value, files);
        if NamesDistinct(sidecar.value) {
          ReconcileKeepsDistinct(sidecar.value, files);
        }
        sidecar := Some(images);
        loaded := Some(images);
      }
    }

    /** `update-order`: when the sidecar exists, sort its records by the
        position of their name in `newOrder` and write them back. */
    method UpdateOrder(newOrder: seq<string>)
      requires Valid() && projectFolder.Some?
      modifies this
      ensures Valid()
      ensures old(sidecar).None? ==> unchanged(this)
      ensures old(sidecar).Some? ==> sidecar == Some(SortByKey(newOrder, old(sidecar).value))
      ensures multiset(Stored()) == multiset(old(Stored()))
      ensures projectFolder == old(projectFolder) && files == old(files)
      ensures deleteFileName == old(deleteFileName)
      ensures old(Synced()) ==> Synced()
      ensures old(Distinct()) ==> Distinct()
    {
      if sidecar.Some? {
        var images := SortByKey(newOrder, sidecar.value);
        if NamesDistinct(sidecar.value) {
          SortByKeyKeepsDistinct(newOrder, sidecar.value);
        }
        forall x | x in images ensures x in sidecar.value {
          assert x in multiset(images);
        }
        sidecar := Some(images);
      }
    }

    /** `delete-image`: with a project open, delete the image file if it
        exists, drop the records of that name and rewrite the sidecar only
        when that shortened it (`rewritten`); tell the window
        (`uiNotified`) exactly when a file was deleted. */
    method DeleteImage(fileName: string) returns (uiNotified: bool, rewritten: bool)
      requires Valid()
      modifies this
      ensures Valid()
      ensures old(projectFolder).None? ==> unchanged(this) && !uiNotified && !rewritten
      ensures old(projectFolder).Some? ==>
        && files == old(files) - {fileName}
        && uiNotified == (fileName in old(files))
        && (old(sidecar).None? ==> sidecar.None?)
        && (old(sidecar).Some? ==> sidecar == Some(WithoutName(old(sidecar).value, fileName)))
        && rewritten == (old(sidecar).Some? && !Absent(old(sidecar).value, fileName))
        && Absent(Stored(), fileName)
      ensures projectFolder == old(projectFolder) && deleteFileName == old(deleteFileName)
      ensures old(Synced()) ==> Synced()
      ensures old(Distinct()) ==> Distinct()
    {
      uiNotified, rewritten := false, false;
      if projectFolder.Some? {
        var fileDeleted := false;
        if fileName in files {
          files := files - {fileName};
          fileDeleted := true;
        }
        if sidecar.Some? {
          var images := sidecar.value;
          var initialLength := |images|;
          images := WithoutName(images, fileName);
          if NamesDistinct(sidecar.value) {
            WithoutNameKeepsDistinct(sidecar.value, fileName);
          }
          if |images| != initialLength {
            sidecar := Some(images);
            rewritten := true;
          }
        }
        uiNotified := fileDeleted;
      }
    }

    /** `show-confirm-dialog`: remember which file the dialog is about. */
    method ShowConfirmDialog(fileName: string)
      modifies this`deleteFileName
      ensures deleteFileName == Some(fileName)
    {
      deleteFileName := Some(fileName);
    }

    /** `confirm-dialog-response`: on a yes with a name pending, run the
        `delete-image` handler for it; in every case forget the name. */
    method ConfirmDialogResponse(response: bool) returns (uiNotified: bool)
      requires Valid()
      modifies this
      ensures Valid()
      ensures deleteFileName == None
      ensures projectFolder == old(projectFolder)
      ensures !ConfirmFires(response, old(deleteFileName)) || old(projectFolder).None? ==>
        files == old(files) && sidecar == old(sidecar) && !uiNotified
      ensures ConfirmFires(response, old(deleteFileName)) && old(projectFolder).Some? ==>
        var name := old(deleteFileName).value;
        && files == old(files) - {name}
        && uiNotified == (name in old(files))
        && (old(sidecar).None? ==> sidecar.None?)
        && (old(sidecar).Some? ==> sidecar == Some(WithoutName(old(sidecar).value, name)))
      ensures old(Synced()) ==> Synced()
      ensures old(Distinct()) ==> Distinct()
    {
      uiNotified := false;
      if response && deleteFileName.Some? && deleteFileName.value != "" {
        var rewritten;
        uiNotified, rewritten := DeleteImage(deleteFileName.value);
      }
      deleteFileName := None;
    }
  }

  /** A cancelled dialog deletes nothing; a confirmed one deletes the file and
      its record; deleting again changes nothing and tells nobody. */
  method CancelConfirmRepeat()
  {
    var r := Record("b.jpg", true, None, None);
    var m := new MainProcess();
    m.SelectProject("/slides", {r.name}, Some([r]));
    m.ShowConfirmDialog(r.name);
    var notified := m.ConfirmDialogResponse(false);
    assert !notified && m.files == {r.name} && m.sidecar == Some([r]);
    m.ShowConfirmDialog(r.name);
    notified := m.ConfirmDialogResponse(true);
    assert notified && m.files == {} && m.sidecar == Some([]);
    var rewritten;
    notified, rewritten := m.DeleteImage(r.name);
    assert !notified && !rewritten;
  }
}
