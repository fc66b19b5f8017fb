/** User records on the heap, as handlers share them, and as values. */
module Users {
  import opened Multimaps

  type Extra = Multimap

  datatype User = User(name: string, groups: seq<string>, uid: string, extra: Extra)

  /** A Go map of string slices: shared by everyone who holds the reference. */
  class ExtraMap {
    var entries: Extra

    constructor ()
      ensures entries == map[]
    {
      entries := map[];
    }
  }

  class UserInfo {
    var name: string
    var groups: seq<string>
    var uid: string
    var extra: ExtraMap?

    constructor (name: string, groups: seq<string>, uid: string, extra: ExtraMap?)
      ensures this.name == name && this.groups == groups && this.uid == uid && this.extra == extra
    {
      this.name := name;
      this.groups := groups;
      this.uid := uid;
      this.extra := extra;
    }

    function View(): User
      reads this, extra
    {
      User(name, groups, uid, if extra == null then map[] else extra.entries)
    }
  }
}
