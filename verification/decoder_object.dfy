/**
  One decoder object (struct JVOBJECT of libharvid/decoder_ctrl.c) as a value, and what each
  region between locking and unlocking it makes of its flags.  Class JvObject of module
  PoolObject is the object that is updated in place.
  */
module DecoderObject {
  import opened Wrappers

  type File = string

  const NO_FMT: int := -1       // AV_PIX_FMT_NONE
  const DEFAULT_FMT: int := 2   // DEFAULT_PIX_FMT, that is AV_PIX_FMT_RGB24

  /** An open decoder: what it was opened for. */
  datatype Decoder = Decoder(file: File, fmt: int)

  datatype Jvo = Jvo(id: nat, fmt: int, frame: int, lru: int,
                     used: bool, open: bool, valid: bool, pending: bool, info: bool,
                     refcnt: int, decoder: Option<Decoder>)

  /** VOF_USED | VOF_PENDING | VOF_INFO */
  predicate Busy(j: Jvo)
  {
    j.used || j.pending || j.info
  }

  /** No flag at all. */
  predicate Blank(j: Jvo)
  {
    !j.used && !j.open && !j.valid && !j.pending && !j.info
  }

  const NEW_JVO := Jvo(0, NO_FMT, -1, 0, false, false, false, false, false, 0, None)

  /** What a request does when it holds the object's lock. */
  datatype Attempt = GotInfo | GotDecoder | MustOpen | PickAgain | TryAgain

  function WantedFmt(fmt: int): int
  {
    if fmt == NO_FMT then DEFAULT_FMT else fmt
  }

  function AddInfo(j: Jvo): Jvo
  {
    j.(refcnt := j.refcnt + 1, info := true)
  }

  /** The locked region of the main loop of dctrl_get_decoder. */
  function AttemptResult(j: Jvo, frame: int): Attempt
  {
    if j.pending then PickAgain
    else if j.valid && !j.used && !j.open && !j.info then MustOpen
    else if frame < 0 then (if j.open && j.valid then GotInfo else TryAgain)
    else if j.valid && j.open && !j.used then GotDecoder else TryAgain
  }

  function AfterAttempt(j: Jvo, frame: int, now: int): Jvo
  {
    match AttemptResult(j, frame)
    case MustOpen => j.(pending := true, lru := now)
    case GotInfo => AddInfo(j)
    case GotDecoder => j.(used := true)
    case _ => j
  }

  /** The region after my_open_movie succeeded: open, then take the object at once. */
  function AfterOpen(j: Jvo, fmt: int, frame: int, file: File): Jvo
  {
    var o := j.(fmt := WantedFmt(fmt), open := true, pending := false,
                decoder := Some(Decoder(file, WantedFmt(fmt))));
    if frame < 0 then AddInfo(o) else o.(used := true)
  }

  function AfterOpenFailed(j: Jvo): Jvo
  {
    j.(pending := false)
  }

  function AfterReleaseDecoder(j: Jvo): Jvo
  {
    j.(used := false)
  }

  function AfterReleaseInfo(j: Jvo): Jvo
  {
    if j.refcnt - 1 < 1 then j.(refcnt := j.refcnt - 1, info := false) else j.(refcnt := j.refcnt - 1)
  }

  function Closed(j: Jvo): Jvo
  {
    if j.open then j.(decoder := None, open := false, fmt := NO_FMT) else j
  }

  /** What clearjvo does to an object that is not busy. */
  function Cleared(j: Jvo, f: nat): Jvo
  {
    var c := Closed(j);
    if f > 0 then c.(id := 0, lru := 0, frame := -1, valid := false) else c
  }

  /** What getjvo does to an object that it takes over. */
  function Recycled(j: Jvo): Jvo
  {
    Closed(j).(id := 0, lru := 0, frame := -1,
               used := false, open := false, valid := false, pending := false, info := false)
  }

  /** What new_video_object makes of a blank object. */
  function Claimed(j: Jvo, id: nat, fmt: int): Jvo
  {
    j.(id := id, fmt := WantedFmt(fmt), frame := -1, valid := true)
  }
}
