/** The e-mail client's sender handling (email/mailgun.go): the address
    formatting helper and the option functions `NewClient` applies to a
    fresh client. Sending is not modelled. */
module Mail {

  import opened Wrappers

  const DefaultFrom: string := "support@literaryreviews.com"

  /** `buildEmail`: a bare address when there is no name, otherwise
      "name <address>". */
  function BuildEmail(name: string, email: string): (r: string)
    ensures name == "" ==> r == email
    ensures name != "" ==> |r| == |name| + |email| + 3
    ensures name != "" ==> r[..|name|] == name && r[|name|..|name| + 2] == " <"
                           && r[|name| + 2..|r| - 1] == email && r[|r| - 1] == '>'
  {
    if name == "" then email else name + " <" + email + ">"
  }

  /** The Mailgun credentials `WithMailgun` installs. */
  datatype MailgunConfig = MailgunConfig(domain: string, apiKey: string, publicKey: string)

  /** A `ClientConfig`: the two option constructors of the package. */
  datatype ClientConfig =
    | WithMailgun(domain: string, apiKey: string, publicKey: string)
    | WithSender(name: string, email: string)

  /** The sender a client ends up with after the options, applied left to
      right to the default. */
  function FromAfter(opts: seq<ClientConfig>): string
  {
    if opts == [] then DefaultFrom
    else
      match opts[|opts| - 1]
      case WithSender(n, e) => BuildEmail(n, e)
      case WithMailgun(_, _, _) => FromAfter(opts[..|opts| - 1])
  }

  /** The Mailgun connection a client ends up with after the options,
      applied left to right to none. */
  function MgAfter(opts: seq<ClientConfig>): Option<MailgunConfig>
  {
    if opts == [] then None
    else
      match opts[|opts| - 1]
      case WithMailgun(d, k, p) => Some(MailgunConfig(d, k, p))
      case WithSender(_, _) => MgAfter(opts[..|opts| - 1])
  }

  /** The position of the last `WithMailgun` option, if any. */
  function LastMailgun(opts: seq<ClientConfig>): (r: Option<nat>)
    ensures r.Some? ==> r.value < |opts| && opts[r.value].WithMailgun?
    ensures r.Some? ==> forall k :: r.value < k < |opts| ==> opts[k].WithSender?
    ensures r.None? ==> forall k :: 0 <= k < |opts| ==> opts[k].WithSender?
  {
    if opts == [] then None
    else if opts[|opts| - 1].WithMailgun? then Some(|opts| - 1)
    else LastMailgun(opts[..|opts| - 1])
  }

  /** The last `WithMailgun` decides the connection; without one there is
      none. */
  lemma {:induction false} MgAfterDecides(opts: seq<ClientConfig>)
    ensures LastMailgun(opts).None? ==> MgAfter(opts) == None
    ensures LastMailgun(opts).Some? ==>
              var o := opts[LastMailgun(opts).value];
              MgAfter(opts) == Some(MailgunConfig(o.domain, o.apiKey, o.publicKey))
  {
    if opts != [] && opts[|opts| - 1].WithSender? {
      MgAfterDecides(opts[..|opts| - 1]);
    }
  }

  /** The position of the last `WithSender` option, if any. */
  function LastSender(opts: seq<ClientConfig>): (r: Option<nat>)
    ensures r.Some? ==> r.value < |opts| && opts[r.value].WithSender?
    ensures r.Some? ==> forall k :: r.value < k < |opts| ==> opts[k].WithMailgun?
    ensures r.None? ==> forall k :: 0 <= k < |opts| ==> opts[k].WithMailgun?
  {
    if opts == [] then None
    else if opts[|opts| - 1].WithSender? then Some(|opts| - 1)
    else LastSender(opts[..|opts| - 1])
  }

  /** Options apply in order, so the last `WithSender` decides the sender;
      without one it stays the default. */
  lemma {:induction false} LastSenderDecides(opts: seq<ClientConfig>)
    ensures LastSender(opts).None? ==> FromAfter(opts) == DefaultFrom
    ensures LastSender(opts).Some? ==>
              var o := opts[LastSender(opts).value]; FromAfter(opts) == BuildEmail(o.name, o.email)
  {
    if opts != [] && opts[|opts| - 1].WithMailgun? {
      LastSenderDecides(opts[..|opts| - 1]);
    }
  }

  /** The mail client: the sender address and the Mailgun connection. */
  class Client {
    var from: string
    var mg: Option<MailgunConfig>

    /** `NewClient`: start from the default sender and apply each option in
        turn. */
    constructor (opts: seq<ClientConfig>)
      ensures from == FromAfter(opts) && mg == MgAfter(opts)
      ensures opts == [] ==> from == DefaultFrom && mg == None
    {
      from := DefaultFrom;
      mg := None;
      new;
      var i := 0;
      while i < |opts|
        invariant 0 <= i <= |opts|
        invariant from == FromAfter(opts[..i]) && mg == MgAfter(opts[..i])
      {
        Apply(opts[i]);
        assert opts[..i + 1][..i] == opts[..i];
        i := i + 1;
      }
      assert opts[..|opts|] == opts;
    }

    /** Apply one option to this client. */
    method Apply(opt: ClientConfig)
      modifies this
      ensures opt.WithSender? ==> from == BuildEmail(opt.name, opt.email) && mg == old(mg)
      ensures opt.WithMailgun? ==>
                from == old(from) && mg == Some(MailgunConfig(opt.domain, opt.apiKey, opt.publicKey))
    {
      match opt
      case WithSender(n, e) => from := BuildEmail(n, e);
      case WithMailgun(d, k, p) => mg := Some(MailgunConfig(d, k, p));
    }
  }
}
