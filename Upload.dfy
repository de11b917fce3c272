/**
 * The upload widget: local validation of the chosen file, the
 * `uploading` / `uploadError` / `uploadSuccess` state around the awaited
 * upload, clearing the file input and the one `fileUploaded` event on
 * success. The token fetch and the POST enter as an outcome value.
 */
module Upload {
  import opened Wrappers
  import Gallery

  const AllowedTypes: seq<string> := ["image/jpeg", "image/jpg", "image/png", "image/gif"]
  const MaxSize: nat := 5 * 1024 * 1024

  const InvalidTypeMessage: string := "Invalid file type. Only JPG, PNG, and GIF images are allowed."
  const TooLargeMessage: string := "File size exceeds 5MB limit."
  const GenericFailureMessage: string := "Failed to upload file. Please try again."

  /** The browser `File` fields the widget reads. */
  datatype SelectedFile = SelectedFile(name: string, mimeType: string, size: nat)

  /** How the awaited token fetch and `POST /upload` ended; `detail` is the server's. */
  datatype UploadOutcome = Uploaded | UploadFailed(detail: Option<string>)

  /** The ordered local checks: type first, then size; the message of the first that fails. */
  function Validate(file: SelectedFile): (error: Option<string>)
    ensures file.mimeType !in AllowedTypes ==> error == Some(InvalidTypeMessage)
    ensures file.mimeType in AllowedTypes ==> (error == Some(TooLargeMessage) <==> file.size > MaxSize)
    ensures error.None? <==> file.mimeType in AllowedTypes && file.size <= 5242880
  {
    if file.mimeType !in AllowedTypes then Some(InvalidTypeMessage)
    else if file.size > MaxSize then Some(TooLargeMessage)
    else None
  }

  /**
   * `error.response?.data?.detail || generic`: the server's detail unless it
   * is missing or the empty string, which JavaScript treats as false.
   */
  function FailureMessage(detail: Option<string>): (message: string)
    ensures message != ""
    ensures detail.Some? && detail.value != "" ==> message == detail.value
    ensures detail.None? || detail.value == "" ==> message == GenericFailureMessage
  {
    if detail.Some? && detail.value != "" then detail.value else GenericFailureMessage
  }

  /** The success message, which quotes the file's name. */
  function SuccessMessage(name: string): (message: string)
    ensures |message| == |name| + 30
    ensures message[6..6 + |name|] == name
  {
    "File \"" + name + "\" uploaded successfully!"
  }

  /** The widget's state. */
  class FileUpload {
    const channel: Gallery.RefreshChannel
    var uploading: bool
    var uploadError: Option<string>
    var uploadSuccess: Option<string>
    /** `fileInputRef.current.value`; None while the ref holds no element. */
    var inputValue: Option<string>
    /** Specification state: the files handed to the submission protocol, in order. */
    ghost var attempts: seq<SelectedFile>

    constructor (channel: Gallery.RefreshChannel, inputValue: Option<string>)
      ensures this.channel == channel && this.inputValue == inputValue
      ensures !uploading && uploadError.None? && uploadSuccess.None? && attempts == []
    {
      this.channel := channel;
      this.inputValue := inputValue;
      uploading := false;
      uploadError := None;
      uploadSuccess := None;
      attempts := [];
    }

    /**
     * The synchronous part of `handleFileSelect`, up to the awaited token.
     * Returns whether the upload was started.
     */
    method HandleFileSelect(file: Option<SelectedFile>) returns (started: bool)
      modifies this
      ensures file.None? ==> !started && unchanged(this)
      ensures started <==> file.Some? && Validate(file.value).None?
      ensures inputValue == old(inputValue)
      ensures !started ==>
        && uploading == old(uploading) && uploadSuccess == old(uploadSuccess)
        && attempts == old(attempts)
        && uploadError == if file.None? then old(uploadError) else Validate(file.value)
      ensures started ==>
        && uploading && uploadError.None? && uploadSuccess.None?
        && attempts == old(attempts) + [file.value]
    {
      if file.None? {
        return false;
      }
      var f := file.value;
      if f.mimeType !in AllowedTypes {
        uploadError := Some(InvalidTypeMessage);
        return false;
      }
      if f.size > MaxSize {
        uploadError := Some(TooLargeMessage);
        return false;
      }
      uploading := true;
      uploadError := None;
      uploadSuccess := None;
      attempts := attempts + [f];
      started := true;
    }

    /**
     * The part of `handleFileSelect` after the awaited upload. On success:
     * the message naming the file, the input cleared, one event dispatched.
     * On failure: the failure message and no event. Either way, not uploading.
     */
    method FinishUpload(file: SelectedFile, outcome: UploadOutcome)
      requires channel.Valid() && file in attempts
      modifies this, channel, channel.Subscribers()
      ensures !uploading && attempts == old(attempts)
      ensures channel.Valid() && channel.listeners == old(channel.listeners)
      ensures outcome.Uploaded? ==>
        && uploadSuccess == Some(SuccessMessage(file.name))
        && uploadError == old(uploadError)
        && inputValue == (if old(inputValue).Some? then Some("") else None)
        && channel.dispatched == old(channel.dispatched) + 1
        && forall g | g in channel.listeners ::
             && g.loading && g.error.None? && g.files == old(g.files) && g.mounted == old(g.mounted)
             && g.fetches == old(g.fetches) + 1
      ensures outcome.UploadFailed? ==>
        && uploadError == Some(FailureMessage(outcome.detail))
        && uploadSuccess == old(uploadSuccess) && inputValue == old(inputValue)
        && unchanged(channel)
        && forall g | g in channel.listeners :: unchanged(g)
    {
      if outcome.Uploaded? {
        uploadSuccess := Some(SuccessMessage(file.name));
        if inputValue.Some? {
          inputValue := Some("");
        }
        channel.Dispatch();
      } else {
        uploadError := Some(FailureMessage(outcome.detail));
      }
      uploading := false;
    }

    /**
     * `handleFileInputChange`: the input's first file, or undefined for an
     * empty list; the input is disabled while uploading.
     */
    method HandleFileInputChange(files: seq<SelectedFile>) returns (started: bool)
      modifies this
      ensures old(uploading) || |files| == 0 ==> !started && unchanged(this)
      ensures started <==> !old(uploading) && |files| > 0 && Validate(files[0]).None?
      ensures inputValue == old(inputValue)
      ensures !started ==>
        && uploading == old(uploading) && uploadSuccess == old(uploadSuccess)
        && attempts == old(attempts)
        && uploadError == if old(uploading) || |files| == 0 then old(uploadError) else Validate(files[0])
      ensures started ==>
        && uploading && uploadError.None? && uploadSuccess.None?
        && attempts == old(attempts) + [files[0]]
    {
      if uploading {
        return false;
      }
      started := HandleFileSelect(if |files| > 0 then Some(files[0]) else None);
    }

    /**
     * `handleDrop`: only the first dropped file is used; an empty drop does
     * nothing. Nothing guards a drop while an upload is in progress.
     */
    method HandleDrop(files: seq<SelectedFile>) returns (started: bool)
      modifies this
      ensures |files| == 0 ==> !started && unchanged(this)
      ensures started <==> |files| > 0 && Validate(files[0]).None?
      ensures inputValue == old(inputValue)
      ensures !started ==>
        && uploading == old(uploading) && uploadSuccess == old(uploadSuccess)
        && attempts == old(attempts)
        && uploadError == if |files| == 0 then old(uploadError) else Validate(files[0])
      ensures started ==>
        && uploading && uploadError.None? && uploadSuccess.None?
        && attempts == old(attempts) + [files[0]]
    {
      if |files| > 0 {
        started := HandleFileSelect(Some(files[0]));
      } else {
        started := false;
      }
    }
  }
}
