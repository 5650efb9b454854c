/** Everything outside the process: the storage server and its moods. */
module Outside {
  import opened Base
  import opened Transfer

  /** A file on the storage server: its directory and its name in it. */
  datatype Path = Path(dir: string, name: string)

  /** The storage server at one moment, with the answers its next calls will give. */
  datatype Server = Server(files: map<Path, Bytes>, plan: Plan, calls: seq<Call>) {
    /** As one file's transfer sees it. */
    function At(path: Path): Net {
      Net(if path in files then Some(files[path]) else None, plan, calls)
    }
  }

  class World {
    var files: map<Path, Bytes>
    var dirs: set<Path>      // directories, which a listing shows beside the files
    var plan: Plan           // the answers the next external calls will get
    var calls: seq<Call>     // the transfer calls made so far

    constructor (files: map<Path, Bytes>, dirs: set<Path>, plan: Plan)
      ensures this.files == files && this.dirs == dirs && this.plan == plan && calls == []
    {
      this.files, this.dirs, this.plan, calls := files, dirs, plan, [];
    }

    ghost function Now(): Server
      reads this
    {
      Server(files, plan, calls)
    }

    /** The world as one file's transfer sees it. */
    ghost function At(path: Path): Net
      reads this
    {
      Now().At(path)
    }

    // Every file but the one at `path`.
    ghost function Others(path: Path): map<Path, Bytes>
      reads this
    {
      files - {path}
    }

    /** Takes the answer to one external call. */
    method Answer() returns (move: Move)
      modifies this`plan
      ensures move == Next(old(plan)) && plan == Rest(old(plan))
    {
      if plan == [] {
        return Proceed;
      }
      move := plan[0];
      plan := plan[1..];
    }
  }
}
