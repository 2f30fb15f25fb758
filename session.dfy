/**
 * The per-chat record the bot keeps: profile names, timestamps, the
 * pending reply (`reply_to`) and the promo flag, with the methods that
 * update them in place.
 */
module Session {
  import opened PyStr

  /** await_reply keeps at most this many characters of a pending command. */
  const MaxReplyTo := 1500

  /** What await_reply stores for `command`: nothing for None, otherwise
      the command cut to its first 1500 characters. */
  function Clip(command: Option<string>): (r: Option<string>)
    ensures r.None? <==> command.None?
    ensures r.Some? ==> r.value <= command.value
    ensures r.Some? ==> |r.value| == if |command.value| > MaxReplyTo then MaxReplyTo else |command.value|
  {
    match command
    case None => None
    case Some(c) => Some(if |c| > MaxReplyTo then c[..MaxReplyTo] else c)
  }

  /** A pending reply never exceeds the bound. */
  predicate Bounded(replyTo: Option<string>) {
    replyTo.Some? ==> |replyTo.value| <= MaxReplyTo
  }

  /** Clipping a command that is already within the bound changes nothing,
      so clipping twice is clipping once. */
  lemma ClipIdempotent(command: Option<string>)
    ensures Bounded(Clip(command))
    ensures Bounded(command) ==> Clip(command) == command
    ensures Clip(Clip(command)) == Clip(command)
  {
    if command.Some? && |command.value| > MaxReplyTo {
      assert |Clip(command).value| == MaxReplyTo;
    }
  }

  /** A chat (private user or group). Timestamps are plain numbers handed
      in by the caller; the record's uuid is not kept. */
  class User {
    var username: Option<string>
    var firstName: Option<string>
    var lastName: Option<string>
    var created: nat
    var lastReceived: nat
    var lastSent: Option<nat>
    var replyTo: Option<string>
    var promo: bool

    predicate Valid()
      reads this
    {
      Bounded(replyTo)
    }

    /** User(uname, f_name, l_name): every timestamp is "now", nothing is
        pending (the empty string) and the promo flag is off. */
    constructor(uname: Option<string>, fName: Option<string>, lName: Option<string>, now: nat)
      ensures username == uname && firstName == fName && lastName == lName
      ensures created == now && lastReceived == now && lastSent == Some(now)
      ensures replyTo == Some("") && !promo
      ensures Valid()
    {
      username := uname;
      firstName := fName;
      lastName := lName;
      created := now;
      lastReceived := now;
      lastSent := Some(now);
      replyTo := Some("");
      promo := false;
    }

    /** set_promo */
    method SetPromo(p: bool)
      modifies this`promo
      ensures promo == p
    {
      promo := p;
    }

    /** update_last_received */
    method UpdateLastReceived(now: nat)
      modifies this`lastReceived
      ensures lastReceived == now
    {
      lastReceived := now;
    }

    /** update_last_sent */
    method UpdateLastSent(now: nat)
      modifies this`lastSent
      ensures lastSent == Some(now)
    {
      lastSent := Some(now);
    }

    /** await_reply: the pending reply becomes the clipped command; it stays
        within the bound whatever was there before. */
    method AwaitReply(command: Option<string>)
      modifies this`replyTo
      ensures replyTo == Clip(command)
      ensures Valid()
    {
      var c := command;
      if c.Some? && |c.value| > MaxReplyTo {
        c := Some(c.value[..MaxReplyTo]);
      }
      replyTo := c;
    }
  }

  /** get_user: the datastore lookup is not in the program, so every call
      builds a fresh record User('-', '-'). */
  method GetUser(now: nat) returns (user: User)
    ensures fresh(user) && user.Valid()
    ensures user.username == Some("-") && user.firstName == Some("-") && user.lastName == Some("")
    ensures user.replyTo == Some("") && user.lastSent == Some(now) && !user.promo
  {
    user := new User(Some("-"), Some("-"), Some(""), now);
  }

  /** update_profile: the record get_user gives is always there (an object
      is always true in a condition), so its names are overwritten and its
      last-received time updated; the branch that creates a new user is
      never taken. */
  method UpdateProfile(uname: Option<string>, fName: Option<string>, lName: Option<string>, now: nat)
    returns (user: User)
    ensures fresh(user) && user.Valid()
    ensures user.username == uname && user.firstName == fName && user.lastName == lName
    ensures user.lastReceived == now && user.lastSent == Some(now)
    ensures user.replyTo == Some("") && !user.promo
  {
    user := GetUser(now);
    user.username := uname;
    user.firstName := fName;
    user.lastName := lName;
    user.UpdateLastReceived(now);
  }
}
