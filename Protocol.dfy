/**
 * The upload widget and the gallery together on one `fileUploaded`
 * channel, as the page mounts them.
 */
module Protocol {
  import opened Wrappers
  import Backend
  import Gallery
  import Upload

  /**
   * A gallery is mounted and its first fetch ends with `initial`. A valid
   * file is then chosen and its upload succeeds: the gallery starts exactly
   * one more fetch, and when that fetch returns the uploader's listing from
   * a database that now holds `rec`, the gallery shows a grid with `rec`.
   */
  method UploadRefreshesGallery(file: Upload.SelectedFile, initial: Gallery.FetchOutcome,
                                db: seq<Backend.FileRecord>, rec: Backend.FileRecord)
      returns (ghost fetches: nat, view: Gallery.View)
    requires Upload.Validate(file).None?
    ensures fetches == 2
    ensures view.GridView? && Backend.ToView(rec) in view.files
  {
    var channel := new Gallery.RefreshChannel();
    var gallery := new Gallery.FileList();
    gallery.Mount(channel);
    assert channel.listeners == [gallery];
    gallery.CompleteFetch(initial);
    var widget := new Upload.FileUpload(channel, Some(""));
    var started := widget.HandleFileSelect(Some(file));
    assert channel.listeners == [gallery] && file in widget.attempts;
    widget.FinishUpload(file, Upload.Uploaded);
    assert gallery in channel.listeners;
    assert gallery.mounted && gallery.error.None? && gallery.fetches == 2;
    var listing := Backend.GetUserFiles(db + [rec], Backend.Claims(rec.userId));
    Backend.StoredRecordIsListed(db, rec);
    gallery.CompleteFetch(Gallery.Fetched(listing));
    fetches := gallery.fetches;
    view := gallery.CurrentView();
  }
}
