/**
 * The decision that ends `register` and `login`: the status of the GET that
 * fetches the form, the status of the POST that submits it, then the banners
 * of the page the POST returned, checked in that order.
 */
module Flows {
  import opened Wrappers
  import opened Strings

  datatype Flow = Registration | Login

  datatype Verb = Get | Post

  /**
   * What the page returned by the POST shows: the `<strong>` and `<p>` text
   * inside `.alert-danger` and the `<strong>` text inside `.alert-success`,
   * each "" when the element is absent.
   */
  datatype Banners = Banners(dangerTitle: string, dangerDetail: string, successTitle: string)

  /** Why a flow throws. */
  datatype FlowError =
    | UnexpectedStatus(verb: Verb, path: string, status: nat)
    | Rejected(flow: Flow, detail: string)
    | UnknownError(flow: Flow)

  function Path(flow: Flow): string
  {
    match flow
    case Registration => "/register"
    case Login => "/login"
  }

  function FailureTitle(flow: Flow): string
  {
    match flow
    case Registration => "Registration Failed"
    case Login => "Login Failed"
  }

  function SuccessTitle(flow: Flow): string
  {
    match flow
    case Registration => "Registration Successful"
    case Login => "Login Successful"
  }

  function VerbName(verb: Verb): string
  {
    match verb
    case Get => "GET"
    case Post => "POST"
  }

  /**
   * The outcome of a flow. The first check that fails decides the error:
   * a GET that is not 200, a POST that is not 200, a failure banner (which
   * wins over a success banner on the same page), and last a success banner
   * whose title is not exactly the expected one.
   */
  function Classify(flow: Flow, getStatus: nat, postStatus: nat, banners: Banners): (r: Outcome<FlowError>)
    ensures getStatus != 200 ==> r == Fail(UnexpectedStatus(Get, Path(flow), getStatus))
    ensures getStatus == 200 && postStatus != 200 ==>
      r == Fail(UnexpectedStatus(Post, Path(flow), postStatus))
    ensures getStatus == 200 && postStatus == 200 && banners.dangerTitle == FailureTitle(flow) ==>
      r == Fail(Rejected(flow, banners.dangerDetail))
    ensures r == Pass <==>
      getStatus == 200 && postStatus == 200 &&
      banners.dangerTitle != FailureTitle(flow) && banners.successTitle == SuccessTitle(flow)
    ensures
      (getStatus == 200 && postStatus == 200 &&
       banners.dangerTitle != FailureTitle(flow) && banners.successTitle != SuccessTitle(flow))
      ==> r == Fail(UnknownError(flow))
  {
    if getStatus != 200 then Fail(UnexpectedStatus(Get, Path(flow), getStatus))
    else if postStatus != 200 then Fail(UnexpectedStatus(Post, Path(flow), postStatus))
    else if banners.dangerTitle == FailureTitle(flow) then Fail(Rejected(flow, banners.dangerDetail))
    else if banners.successTitle != SuccessTitle(flow) then Fail(UnknownError(flow))
    else Pass
  }

  /** The head of the message for a status error, up to the status digits. */
  function StatusHead(verb: Verb, path: string): string
  {
    VerbName(verb) + " " + path + ": HTTP "
  }

  /**
   * The message of the thrown error. A status error names the request and
   * ends with the status in decimal, without leading zeros; a rejection
   * names the flow and ends with the detail text of the failure banner.
   */
  function Message(e: FlowError): (r: string)
    ensures e.UnexpectedStatus? ==>
      var head := StatusHead(e.verb, e.path);
      |head| < |r| && r[..|head|] == head && r[|head|..] == DecimalString(e.status) &&
      IsDigits(r[|head|..]) && DigitsValue(r[|head|..]) == e.status
    ensures e.Rejected? && e.flow == Registration ==> r == "Registration failed: " + e.detail
    ensures e.Rejected? && e.flow == Login ==> r == "Login failed: " + e.detail
    ensures e.Rejected? ==> |e.detail| <= |r| && r[|r| - |e.detail|..] == e.detail
    ensures e == UnknownError(Registration) ==> r == "Unknown error when registering"
    ensures e == UnknownError(Login) ==> r == "Unknown error when logging in"
  {
    match e
    case UnexpectedStatus(verb, path, status) =>
      var head := StatusHead(verb, path);
      var r := head + DecimalString(status);
      assert r[|head|..] == DecimalString(status);
      r
    case Rejected(flow, detail) =>
      var head := if flow == Registration then "Registration failed: " else "Login failed: ";
      assert (head + detail)[|head + detail| - |detail|..] == detail;
      head + detail
    case UnknownError(flow) =>
      if flow == Registration then "Unknown error when registering"
      else "Unknown error when logging in"
  }
}
