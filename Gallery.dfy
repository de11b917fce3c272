/**
 * The gallery component: its `files` / `loading` / `error` state, the
 * fetch that updates it, the view chosen from it, and the window-level
 * `fileUploaded` channel it subscribes to while mounted.
 */
module Gallery {
  import opened Wrappers
  import Backend

  const LoadErrorMessage: string := "Failed to load files. Please try again."

  /** How the awaited token fetch and `GET /files` ended. */
  datatype FetchOutcome = Fetched(files: seq<Backend.FileView>) | FetchFailed

  /** The one thing the gallery shows. */
  datatype View =
    | LoadingView
    | ErrorView(message: string)     // with a retry button
    | EmptyView
    | GridView(files: seq<Backend.FileView>)

  /** The render: loading first, then an error, then the empty state, else the grid. */
  function SelectView(loading: bool, error: Option<string>, files: seq<Backend.FileView>): (v: View)
    ensures v.LoadingView? <==> loading
    ensures v.ErrorView? <==> !loading && error.Some?
    ensures v.ErrorView? ==> v.message == error.value
    ensures v.EmptyView? <==> !loading && error.None? && |files| == 0
    ensures v.GridView? <==> !loading && error.None? && |files| > 0
    ensures v.GridView? ==> v.files == files
  {
    if loading then LoadingView
    else if error.Some? then ErrorView(error.value)
    else if |files| == 0 then EmptyView
    else GridView(files)
  }

  /** `s` without `g`, order kept. */
  function Without(s: seq<FileList>, g: FileList): (r: seq<FileList>)
    ensures forall x | x in r :: x in s && x != g
    ensures forall x | x in s && x != g :: x in r
    ensures Distinct(s) ==> Distinct(r)
  {
    if s == [] then []
    else
      var rest := Without(s[1..], g);
      assert forall x | x in s :: x == s[0] || x in s[1..];
      if s[0] == g then rest
      else
        assert Distinct(s) ==> s[0] !in s[1..] by {
          if Distinct(s) {
            forall k | 0 <= k < |s[1..]| ensures s[1..][k] != s[0] {
              assert s[1..][k] == s[k + 1];
            }
          }
        }
        assert Distinct(s) ==> Distinct(s[1..]) by {
          if Distinct(s) {
            forall i, j | 0 <= i < j < |s[1..]| ensures s[1..][i] != s[1..][j] {
              assert s[1..][i] == s[i + 1] && s[1..][j] == s[j + 1];
            }
          }
        }
        [s[0]] + rest
  }

  /** No listener appears twice. */
  ghost predicate Distinct(s: seq<FileList>)
  {
    forall i, j | 0 <= i < j < |s| :: s[i] != s[j]
  }

  /**
   * The window's `fileUploaded` listeners. A listener is identified with the
   * gallery whose handler it is; `addEventListener` ignores a listener that
   * is already registered, so none appears twice.
   */
  class RefreshChannel {
    var listeners: seq<FileList>
    ghost var dispatched: nat   // specification state: events dispatched so far

    ghost predicate Valid()
      reads this
    {
      Distinct(listeners)
    }

    function Subscribers(): set<FileList>
      reads this
    {
      set g | g in listeners
    }

    constructor ()
      ensures Valid() && listeners == [] && dispatched == 0
    {
      listeners := [];
      dispatched := 0;
    }

    /** `addEventListener('fileUploaded', ...)`. */
    method Subscribe(g: FileList)
      requires Valid()
      modifies this
      ensures Valid() && dispatched == old(dispatched)
      ensures listeners == if g in old(listeners) then old(listeners) else old(listeners) + [g]
    {
      if g !in listeners {
        listeners := listeners + [g];
      }
    }

    /** `removeEventListener('fileUploaded', ...)`. */
    method Unsubscribe(g: FileList)
      requires Valid()
      modifies this
      ensures Valid() && dispatched == old(dispatched)
      ensures listeners == Without(old(listeners), g)
      ensures g !in listeners
    {
      listeners := Without(listeners, g);
    }

    /**
     * `dispatchEvent(new CustomEvent('fileUploaded'))`: every listener runs
     * its handler, which starts one fetch of its gallery.
     */
    method Dispatch()
      requires Valid()
      modifies this, Subscribers()
      ensures Valid() && listeners == old(listeners) && dispatched == old(dispatched) + 1
      ensures forall g | g in listeners ::
        && g.loading && g.error.None? && g.files == old(g.files) && g.mounted == old(g.mounted)
        && g.fetches == old(g.fetches) + 1
    {
      var i := 0;
      while i < |listeners|
        invariant 0 <= i <= |listeners| && listeners == old(listeners) && dispatched == old(dispatched)
        invariant forall k | 0 <= k < i ::
          && listeners[k].loading && listeners[k].error.None? && listeners[k].files == old(listeners[k].files)
          && listeners[k].mounted == old(listeners[k].mounted) && listeners[k].fetches == old(listeners[k].fetches) + 1
        invariant forall k | i <= k < |listeners| ::
          && listeners[k].loading == old(listeners[k].loading) && listeners[k].error == old(listeners[k].error)
          && listeners[k].files == old(listeners[k].files) && listeners[k].mounted == old(listeners[k].mounted)
          && listeners[k].fetches == old(listeners[k].fetches)
      {
        listeners[i].FetchFiles();
        i := i + 1;
      }
      dispatched := dispatched + 1;
    }
  }

  /** The gallery component's state. */
  class FileList {
    var files: seq<Backend.FileView>
    var loading: bool
    var error: Option<string>
    var mounted: bool
    ghost var fetches: nat   // specification state: fetches started so far

    constructor ()
      ensures files == [] && loading && error.None? && !mounted && fetches == 0
    {
      files := [];
      loading := true;
      error := None;
      mounted := false;
      fetches := 0;
    }

    /** The render of the current state: the list shows only once loaded without error. */
    function CurrentView(): (v: View)
      reads this
      ensures v.LoadingView? <==> loading
      ensures v.ErrorView? <==> !loading && error.Some?
      ensures v.GridView? <==> !loading && error.None? && files != []
      ensures v.GridView? ==> v.files == files
    {
      SelectView(loading, error, files)
    }

    /** The synchronous start of `fetchFiles`, up to the awaited token. */
    method FetchFiles()
      modifies this
      ensures loading && error.None? && files == old(files) && mounted == old(mounted)
      ensures fetches == old(fetches) + 1
      ensures CurrentView() == LoadingView
    {
      loading := true;
      error := None;
      fetches := fetches + 1;
    }

    /**
     * The rest of `fetchFiles`: success replaces the list wholesale, failure
     * sets the fixed message and keeps the list; either way loading ends.
     * Once unmounted, the component's state no longer changes.
     */
    method CompleteFetch(outcome: FetchOutcome)
      modifies this
      ensures !old(mounted) ==> unchanged(this)
      ensures old(mounted) ==>
        && !loading && mounted && fetches == old(fetches)
        && (outcome.Fetched? ==> files == outcome.files && error == old(error))
        && (outcome.FetchFailed? ==> files == old(files) && error == Some(LoadErrorMessage))
    {
      if mounted {
        match outcome {
          case Fetched(list) => files := list;
          case FetchFailed => error := Some(LoadErrorMessage);
        }
        loading := false;
      }
    }

    /** The retry button of the error view runs `fetchFiles` again. */
    method Retry()
      requires CurrentView().ErrorView?
      modifies this
      ensures loading && error.None? && files == old(files) && mounted == old(mounted)
      ensures fetches == old(fetches) + 1
    {
      FetchFiles();
    }

    /** The mount effect: one fetch, then one listener on the channel. */
    method Mount(channel: RefreshChannel)
      requires channel.Valid() && !mounted
      modifies this, channel
      ensures mounted && loading && error.None? && files == old(files) && fetches == old(fetches) + 1
      ensures channel.Valid() && channel.dispatched == old(channel.dispatched)
      ensures channel.listeners ==
        if this in old(channel.listeners) then old(channel.listeners) else old(channel.listeners) + [this]
    {
      mounted := true;
      FetchFiles();
      channel.Subscribe(this);
    }

    /** The effect's cleanup: the listener added on mount is removed. */
    method Unmount(channel: RefreshChannel)
      requires channel.Valid() && mounted
      modifies this, channel
      ensures !mounted && files == old(files) && loading == old(loading) && error == old(error)
      ensures fetches == old(fetches)
      ensures channel.Valid() && channel.dispatched == old(channel.dispatched)
      ensures channel.listeners == Without(old(channel.listeners), this) && this !in channel.listeners
    {
      channel.Unsubscribe(this);
      mounted := false;
    }
  }
}
