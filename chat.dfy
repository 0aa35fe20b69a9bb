/** The chat component's state and the two handlers that change it: registering
    a user name and sending a message, to everyone or to one user. */
module Chat {
  import opened JsText
  import opened Rsa
  import NumberTheory

  datatype Option<T> = None | Some(value: T)

  /** An entry of the message log. */
  datatype Message =
    | System(text: JsString, timestamp: JsString)
    | Sent(sender: JsString, text: JsString, encrypted: bool, timestamp: JsString, recipient: JsString)

  /** The ciphertext a send computes; the component computes it and drops it. */
  datatype Ciphertexts =
    | Broadcast(perRecipient: map<JsString, seq<nat>>)
    | Direct(recipient: JsString, cipher: seq<nat>)

  /** How a call of handleSendMessage ends. */
  datatype SendOutcome =
    | Ignored                        // blank input or no key pair: the guard fails
    | Delivered(ciphertexts: Ciphertexts)
    | RecipientMissing               // users[selectedUser] is undefined (neither an own nor an
                                     // inherited property), so destructuring it inside
                                     // encrypt throws a TypeError

  /** The selector value that means "everyone". */
  const BroadcastSelector: JsString := Ascii("broadcast")

  /** The recipient label of a broadcast entry. */
  const Everyone: JsString := Ascii("Everyone")

  /** The property names every object literal inherits from Object.prototype
      (section 20.1.3 of ECMAScript 2024, with the accessors of its Annex B.2.2).
      Looking one of them up in the directory finds a function, or
      Object.prototype itself, rather than undefined. */
  const InheritedNames: set<JsString> := ObjectPrototypeMethods + LegacyAccessors

  /** The methods of section 20.1.3. */
  const ObjectPrototypeMethods: set<JsString> := {
    Ascii("constructor"), Ascii("hasOwnProperty"), Ascii("isPrototypeOf"),
    Ascii("propertyIsEnumerable"), Ascii("toLocaleString"), Ascii("toString"),
    Ascii("valueOf")
  }

  /** The properties of Annex B.2.2. */
  const LegacyAccessors: set<JsString> := {
    Ascii("__proto__"), Ascii("__defineGetter__"), Ascii("__defineSetter__"),
    Ascii("__lookupGetter__"), Ascii("__lookupSetter__")
  }

  /** encrypt(message, k) for a key object k with neither an `e` nor an `n`
      property, such as an inherited method: both destructure to undefined,
      `undefined > 0` is false, so modPow skips its loop and returns 1 for every
      code unit, exactly as it does for a key with exponent 0. */
  function EncryptWithoutKey(message: JsString): (cipher: seq<nat>)
    ensures forall key: PublicKey :: key.e == 0 && key.n > 0 ==> cipher == Encrypt(message, key)
  {
    seq(|message|, i => 1)
  }

  /** A cipher made without a key says nothing about the text: the generated
      private key turns it back into the text only when every code unit is 1. */
  lemma KeylessCipherUnreadable(text: JsString)
    ensures Decrypt(EncryptWithoutKey(text), GeneratedKeys.privateKey) == text
            <==> forall i :: 0 <= i < |text| ==> text[i] == 1
  {
    var r := Decrypt(EncryptWithoutKey(text), GeneratedKeys.privateKey);
    NumberTheory.PowOne(2753);
    assert forall i :: 0 <= i < |r| ==> r[i] == 1;
  }

  /** The text of the system entry announcing a registration: `${name} joined the chat`. */
  function JoinNotice(name: JsString): (text: JsString)
    ensures |text| == |name| + 16 && text[..|name|] == name
    ensures text[|name|..] == Ascii(" joined the chat")
  {
    name + Ascii(" joined the chat")
  }

  /** The broadcast fan-out: the message encrypted under the public key of every
      registered user except the sender. */
  method EncryptForAll(users: map<JsString, PublicKey>, sender: JsString, text: JsString)
    returns (ciphertexts: map<JsString, seq<nat>>)
    requires forall u :: u in users ==> users[u].n > 0
    ensures ciphertexts.Keys == users.Keys - {sender}
    ensures forall u :: u in ciphertexts ==> ciphertexts[u] == Encrypt(text, users[u])
  {
    ciphertexts := map[];
    var pending := users.Keys;
    while pending != {}
      invariant pending <= users.Keys
      invariant ciphertexts.Keys == users.Keys - pending - {sender}
      invariant forall u :: u in ciphertexts ==> ciphertexts[u] == Encrypt(text, users[u])
      decreases pending
    {
      var user :| user in pending;
      if user != sender {
        ciphertexts := ciphertexts[user := Encrypt(text, users[user])];
      }
      pending := pending - {user};
    }
  }

  /** The RSASecureChat component's state. */
  class ChatApp {
    var messages: seq<Message>
    var inputMessage: JsString
    var userName: JsString
    var isRegistered: bool
    var keyPair: Option<KeyPair>
    var users: map<JsString, PublicKey>
    var selectedUser: JsString

    /** Every key in the component comes from generateKeys, and there is a key
        pair exactly when the user has registered. */
    ghost predicate Valid()
      reads this
    {
      (isRegistered <==> keyPair.Some?) &&
      (keyPair.Some? ==> keyPair.value == GeneratedKeys) &&
      forall u :: u in users ==> users[u] == GeneratedKeys.publicKey
    }

    /** What the render code lets a user reach: the name field and the register
        button are shown only before registration, so the directory is empty
        before it and holds the user's own name alone after it. */
    ghost predicate SingleDevice()
      reads this
    {
      if isRegistered then users.Keys == {userName} else users == map[]
    }

    /** The initial values of the component's useState hooks. */
    constructor ()
      ensures Valid()
      ensures messages == [] && inputMessage == [] && userName == [] && !isRegistered
      ensures keyPair == None && users == map[] && selectedUser == BroadcastSelector
      ensures SingleDevice()
    {
      messages := [];
      inputMessage := [];
      userName := [];
      isRegistered := false;
      keyPair := None;
      users := map[];
      selectedUser := BroadcastSelector;
    }

    /** The name field's onChange. */
    method SetUserName(value: JsString)
      requires Valid()
      modifies this`userName
      ensures Valid() && userName == value
      ensures old(SingleDevice()) && !isRegistered ==> SingleDevice()
    {
      userName := value;
    }

    /** The message field's onChange. */
    method SetInputMessage(value: JsString)
      requires Valid()
      modifies this`inputMessage
      ensures Valid() && inputMessage == value
    {
      inputMessage := value;
    }

    /** The recipient buttons' onClick: "broadcast" or a user name. */
    method SetSelectedUser(value: JsString)
      requires Valid()
      modifies this`selectedUser
      ensures Valid() && selectedUser == value
    {
      selectedUser := value;
    }

    /** handleRegister: a blank name changes nothing; otherwise the user gets
        the generated key pair, their public key is published under the name as
        typed (replacing any earlier key under that name), and one system entry
        announces the join. */
    method HandleRegister(now: JsString)
      requires Valid()
      modifies this
      ensures Valid()
      ensures IsBlank(old(userName)) ==> unchanged(this)
      ensures !IsBlank(old(userName)) ==>
        && keyPair == Some(GeneratedKeys)
        && isRegistered
        && users == old(users)[old(userName) := GeneratedKeys.publicKey]
        && (forall u :: u in old(users) && u != old(userName) ==> u in users && users[u] == old(users)[u])
        && messages == old(messages) + [System(JoinNotice(old(userName)), now)]
        && userName == old(userName) && inputMessage == old(inputMessage)
        && selectedUser == old(selectedUser)
      ensures old(SingleDevice()) && !old(isRegistered) ==> SingleDevice()
    {
      var named := TrimIsTruthy(userName);
      if named {
        var keys := GenerateKeys();
        keyPair := Some(keys);
        users := users[userName := keys.publicKey];
        isRegistered := true;
        messages := messages + [System(JoinNotice(userName), now)];
      }
    }

    /** handleSendMessage: a blank input or a missing key pair changes nothing.
        Otherwise the input is encrypted for every other user (broadcast) or
        for the selected user, exactly one "sent" entry holding the plain text
        is appended and the input is cleared.  A selected name inherited from
        Object.prototype yields a key object without `e` and `n`, which encrypt
        accepts; any other selected name with no key makes the handler throw
        before anything changes. */
    method HandleSendMessage(now: JsString) returns (outcome: SendOutcome)
      requires Valid()
      modifies this
      ensures Valid()
      ensures outcome == Ignored <==> IsBlank(old(inputMessage)) || old(keyPair).None?
      ensures outcome == RecipientMissing <==>
        && !IsBlank(old(inputMessage)) && old(keyPair).Some? && old(selectedUser) != BroadcastSelector
        && old(selectedUser) !in old(users) && old(selectedUser) !in InheritedNames
      ensures !outcome.Delivered? ==> unchanged(this)
      ensures outcome.Delivered? ==>
        && messages == old(messages) + [Sent(old(userName), old(inputMessage), true, now,
                                             if old(selectedUser) == BroadcastSelector then Everyone else old(selectedUser))]
        && inputMessage == []
        && users == old(users) && userName == old(userName) && keyPair == old(keyPair)
        && isRegistered == old(isRegistered) && selectedUser == old(selectedUser)
      ensures outcome.Delivered? && old(selectedUser) == BroadcastSelector ==>
        && outcome.ciphertexts.Broadcast?
        && outcome.ciphertexts.perRecipient.Keys == old(users).Keys - {old(userName)}
        && forall u :: u in outcome.ciphertexts.perRecipient ==>
             outcome.ciphertexts.perRecipient[u] == Encrypt(old(inputMessage), old(users)[u])
      ensures outcome.Delivered? && old(selectedUser) != BroadcastSelector ==>
        outcome.ciphertexts == Direct(old(selectedUser),
                                      if old(selectedUser) in old(users) then Encrypt(old(inputMessage), old(users)[old(selectedUser)])
                                      else EncryptWithoutKey(old(inputMessage)))
      ensures old(SingleDevice()) ==> SingleDevice()
    {
      var typed := TrimIsTruthy(inputMessage);
      if typed && keyPair.Some? {
        if selectedUser == BroadcastSelector {
          var encryptedMessages := EncryptForAll(users, userName, inputMessage);
          messages := messages + [Sent(userName, inputMessage, true, now, Everyone)];
          outcome := Delivered(Broadcast(encryptedMessages));
        } else {
          var encrypted;
          if selectedUser in users {
            encrypted := Encrypt(inputMessage, users[selectedUser]);
          } else if selectedUser in InheritedNames {
            encrypted := EncryptWithoutKey(inputMessage);
          } else {
            return RecipientMissing;
          }
          messages := messages + [Sent(userName, inputMessage, true, now, selectedUser)];
          outcome := Delivered(Direct(selectedUser, encrypted));
        }
        inputMessage := [];
      } else {
        outcome := Ignored;
      }
    }
  }

  /** Every recipient of a broadcast recovers the text with the generated
      private key exactly when all its code units are below n = 3233. */
  lemma BroadcastReadable(users: map<JsString, PublicKey>, sender: JsString, text: JsString,
                          ciphertexts: map<JsString, seq<nat>>)
    requires forall u :: u in users ==> users[u] == GeneratedKeys.publicKey
    requires ciphertexts.Keys == users.Keys - {sender}
    requires forall u :: u in ciphertexts ==> ciphertexts[u] == Encrypt(text, users[u])
    ensures forall u :: u in ciphertexts ==>
      (Decrypt(ciphertexts[u], GeneratedKeys.privateKey) == text <==> forall i :: 0 <= i < |text| ==> text[i] < 3233)
  {
    GeneratedRoundTrip(text);
  }

  /** Every user is published with the same generated key, so a broadcast sends
      the same ciphertext to every recipient. */
  lemma BroadcastSameCipher(users: map<JsString, PublicKey>, sender: JsString, text: JsString,
                            ciphertexts: map<JsString, seq<nat>>, u: JsString, v: JsString)
    requires forall w :: w in users ==> users[w] == GeneratedKeys.publicKey
    requires ciphertexts.Keys == users.Keys - {sender}
    requires forall w :: w in ciphertexts ==> ciphertexts[w] == Encrypt(text, users[w])
    requires u in ciphertexts && v in ciphertexts
    ensures ciphertexts[u] == ciphertexts[v] == Encrypt(text, GeneratedKeys.publicKey)
  {
  }

  /** A session as the rendered page allows it: register as "Alice", then
      broadcast "hi".  Alice is alone in her directory, so the fan-out is empty
      and only the log records the message. */
  method AliceBroadcasts()
  {
    var app := new ChatApp();
    var alice, hi, now := Ascii("Alice"), Ascii("hi"), Ascii("10:00:00");
    app.SetUserName(alice);
    assert !IsWhitespace(alice[0]);
    app.HandleRegister(now);
    assert app.users == map[alice := GeneratedKeys.publicKey];
    app.SetInputMessage(hi);
    assert !IsWhitespace(hi[0]);
    var outcome := app.HandleSendMessage(now);
    assert outcome.ciphertexts.perRecipient.Keys == {};
    assert outcome == Delivered(Broadcast(map[]));
    assert app.messages == [System(JoinNotice(alice), now), Sent(alice, hi, true, now, Everyone)];
    assert app.inputMessage == [];
  }

  /** `users["toString"]`, `users["valueOf"]` and `users["__proto__"]` find
      inherited members, so a direct send to one of these names is delivered
      with a keyless cipher rather than throwing. */
  lemma InheritedLookups()
    ensures Ascii("toString") in InheritedNames && Ascii("valueOf") in InheritedNames
    ensures Ascii("__proto__") in InheritedNames && Ascii("hasOwnProperty") in InheritedNames
  {
  }

  /** "constructor" is an inherited name, neither the broadcast selector nor "Alice". */
  lemma ConstructorIsInherited()
    ensures Ascii("constructor") in InheritedNames
    ensures Ascii("constructor") != BroadcastSelector && Ascii("constructor") != Ascii("Alice")
  {
    var ctor := Ascii("constructor");
    assert ctor[0] != BroadcastSelector[0] && ctor[0] != Ascii("Alice")[0];
  }

  /** The selector set to "constructor", a name no one registered: the lookup
      finds the inherited Object constructor instead of undefined, so the send
      goes through with a cipher of 1s instead of throwing. */
  method AliceSendsToConstructor()
  {
    var app := new ChatApp();
    var alice, hi, now, ctor := Ascii("Alice"), Ascii("hi"), Ascii("10:00:00"), Ascii("constructor");
    ConstructorIsInherited();
    app.SetUserName(alice);
    assert !IsWhitespace(alice[0]);
    app.HandleRegister(now);
    app.SetInputMessage(hi);
    app.SetSelectedUser(ctor);
    assert !IsWhitespace(hi[0]);
    var outcome := app.HandleSendMessage(now);
    assert EncryptWithoutKey(hi) == [1, 1];
    assert outcome == Delivered(Direct(ctor, [1, 1]));
    assert app.messages[1] == Sent(alice, hi, true, now, ctor);
  }
}
