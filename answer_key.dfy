/** Saving a dynamic's answer key: from the reference page (HTML and CSS
    written to the dynamic's web directory, rendered and captured) or from
    an uploaded image, with the web fields preferred and the image as the
    fallback.  The size of the saved image is recorded in the Dynamic
    table.  Disk, browser and upload outcomes are inputs. */
module AnswerKeys {
  import opened Common
  import opened Text
  import opened DynamicStore
  import opened Imaging

  const AnswerKeyFilename: string := "answer_key.png"
  const ImgDir: string := "images"

  /** The uploaded image: its declared content type ("" when absent) and
      what reading it gives (`None` when the read raises), decoded. */
  datatype ImageUpload = ImageUpload(contentType: string, content: Option<Option<Image>>)

  /** The answer-key form: the reference page's two text fields ("" when
      absent) and the optional image. */
  datatype AnswerKeyForm = AnswerKeyForm(html: string, css: string, image: Option<ImageUpload>)
  {
    /** Both text fields are filled in. */
    predicate WebFields() { html != "" && css != "" }

    /** At least one way of building the answer key is present. */
    predicate Fields() { WebFields() || image.Some? }
  }

  /** The outcomes of the web path's steps: the web directory's existence,
      the write of the two files, and the browser's capture. */
  datatype WebEnv = WebEnv(dirExists: bool, filesWritten: bool, capture: Capture)

  /** `get_size`: (width, height) of a decoded image. */
  function SizeOfImage(img: Image): (size: (int, int))
    ensures size.0 == img.width && size.1 == img.height
  {
    (img.width, img.height)
  }

  predicate IsPrefix(p: string, s: string)
  {
    |p| <= |s| && s[..|p|] == p
  }

  /** The image an upload may carry: no content type, or one that starts
      with "image/". */
  predicate AcceptedType(contentType: string)
    ensures AcceptedType(contentType) <==>
      contentType == "" || exists rest :: contentType == "image/" + rest
  {
    assert IsPrefix("image/", contentType) ==> contentType == "image/" + contentType[6..];
    contentType == "" || IsPrefix("image/", contentType)
  }

  // ----- the outcomes of each path -------------------------------------------------

  /** `__save_image`: the decoded image is written; nothing decoded, or a
      write that raises, is an internal error. */
  function ImageSaved(decoded: Option<Image>, writable: bool): (r: Result<Image>)
    ensures r.Ok? <==> decoded.Some? && writable
    ensures r.Ok? ==> r.value == decoded.value
    ensures r.Err? ==> r.error == Internal
  {
    if decoded.None? || !writable then Err(Internal) else Ok(decoded.value)
  }

  /** `__save_from_web_fields`. */
  function WebSaved(env: WebEnv, writable: bool): (r: Result<Image>)
    ensures !env.dirExists ==> r == Err(NotFound)
    ensures env.dirExists && !env.filesWritten ==> r == Err(Internal)
    ensures env.dirExists && env.filesWritten && env.capture.RenderFailed? ==> r == Err(Internal)
    ensures env.dirExists && env.filesWritten && env.capture.Captured? ==>
      r == ImageSaved(env.capture.decoded, writable)
  {
    if !env.dirExists then Err(NotFound)
    else if !env.filesWritten then Err(Internal)
    else match env.capture
      case RenderFailed => Err(Internal)
      case Captured(decoded) => ImageSaved(decoded, writable)
  }

  /** `__save_from_image_field`. */
  function UploadSaved(upload: ImageUpload, writable: bool): (r: Result<Image>)
    ensures !AcceptedType(upload.contentType) ==> r == Err(UnsupportedMediaType)
    ensures AcceptedType(upload.contentType) && upload.content.None? ==> r == Err(Internal)
    ensures AcceptedType(upload.contentType) && upload.content.Some? ==>
      r == ImageSaved(upload.content.value, writable)
  {
    if !AcceptedType(upload.contentType) then Err(UnsupportedMediaType)
    else if upload.content.None? then Err(Internal)
    else ImageSaved(upload.content.value, writable)
  }

  /** The image `save` writes, or what it raises: 422 without fields; the
      web path first when both text fields are filled in; on its failure
      the image, or an internal error when there is no image. */
  function AnswerKeySaved(form: AnswerKeyForm, env: WebEnv, writable: bool): (r: Result<Image>)
    ensures r == Err(UnprocessableEntity) <==> !form.Fields()
    ensures form.Fields() && r.Err? ==>
      || r.error == Internal
      || (r.error == UnsupportedMediaType && form.image.Some?
          && !AcceptedType(form.image.value.contentType))
  {
    if !form.Fields() then Err(UnprocessableEntity)
    else if form.WebFields() then
      var web := WebSaved(env, writable);
      if web.Ok? then web
      else if form.image.None? then Err(Internal)
      else UploadSaved(form.image.value, writable)
    else UploadSaved(form.image.value, writable)
  }

  // ----- the saver --------------------------------------------------------------

  /** The answer-key saver.  Its fields are set step by step as `save`
      runs: the form and dynamic first, then the target path, then the
      size of the image being saved. */
  class AnswerKey {
    var form: Option<AnswerKeyForm>
    var dynamic: string
    var filePath: string
    var size: Option<(int, int)>

    constructor ()
      ensures form.None? && size.None?
    {
      form := None;
      dynamic := "";
      filePath := "";
      size := None;
    }

    /** `__save_image`: the size is taken from the decoded image before it
        is written, so it is recorded even when the write raises. */
    method SaveImage(decoded: Option<Image>, writable: bool) returns (r: Result<Image>)
      modifies this
      ensures r == ImageSaved(decoded, writable)
      ensures decoded.Some? ==> size == Some(SizeOfImage(decoded.value))
      ensures decoded.None? ==> size == old(size)
      ensures form == old(form) && dynamic == old(dynamic) && filePath == old(filePath)
    {
      if decoded.None? {
        return Err(Internal);
      }
      size := Some(SizeOfImage(decoded.value));
      if !writable {
        return Err(Internal);
      }
      r := Ok(decoded.value);
    }

    method SaveFromWebFields(env: WebEnv, writable: bool) returns (r: Result<Image>)
      modifies this
      ensures r == WebSaved(env, writable)
      ensures r.Ok? ==> size == Some(SizeOfImage(r.value))
      ensures form == old(form) && dynamic == old(dynamic) && filePath == old(filePath)
    {
      if !env.dirExists {
        return Err(NotFound);
      }
      if !env.filesWritten {
        return Err(Internal);
      }
      if env.capture.RenderFailed? {
        return Err(Internal);
      }
      r := SaveImage(env.capture.decoded, writable);
    }

    method SaveFromImageField(upload: ImageUpload, writable: bool) returns (r: Result<Image>)
      modifies this
      ensures r == UploadSaved(upload, writable)
      ensures r.Ok? ==> size == Some(SizeOfImage(r.value))
      ensures form == old(form) && dynamic == old(dynamic) && filePath == old(filePath)
    {
      if !AcceptedType(upload.contentType) {
        return Err(UnsupportedMediaType);
      }
      if upload.content.None? {
        return Err(Internal);
      }
      r := SaveImage(upload.content.value, writable);
    }

    /** `save`: on success the saved image's size is stored for the dynamic
        and returned.  `dirCreated` tells whether the image directory was
        made, which happens only once the form has passed the 422 check. */
    method Save(dynamics: DynamicTable, dynamicName: string, answerKeyForm: AnswerKeyForm,
                env: WebEnv, writable: bool)
      returns (r: Result<(int, int)>, dirCreated: bool)
      modifies this, dynamics
      ensures dirCreated <==> answerKeyForm.Fields()
      ensures !dirCreated ==> r == Err(UnprocessableEntity) && unchanged(this) && unchanged(dynamics)
      ensures var saved := AnswerKeySaved(answerKeyForm, env, writable);
        && (r.Ok? <==> saved.Ok?)
        && (r.Err? ==> r.error == saved.error && dynamics.rows == old(dynamics.rows))
        && (r.Ok? ==>
              && r.value == SizeOfImage(saved.value)
              && size == Some(r.value)
              && dynamics.rows == UpdateSize(old(dynamics.rows), dynamicName, FormatSize(r.value.0, r.value.1)))
      ensures r.Ok? && dynamicName in old(dynamics.rows) ==> SizeOf(dynamics.rows, dynamicName) == Ok(r.value)
      ensures dirCreated ==> filePath == ImgDir + "/" + dynamicName + "/" + AnswerKeyFilename
    {
      if !answerKeyForm.Fields() {
        return Err(UnprocessableEntity), false;
      }
      form, dynamic := Some(answerKeyForm), dynamicName;
      dirCreated := true;
      filePath := ImgDir + "/" + dynamicName + "/" + AnswerKeyFilename;
      var saved: Result<Image>;
      if answerKeyForm.WebFields() {
        saved := SaveFromWebFields(env, writable);
        if saved.Err? {
          if answerKeyForm.image.None? {
            return Err(Internal), dirCreated;
          }
          saved := SaveFromImageField(answerKeyForm.image.value, writable);
        }
      } else {
        saved := SaveFromImageField(answerKeyForm.image.value, writable);
      }
      if saved.Err? {
        return Err(saved.error), dirCreated;
      }
      var (w, h) := size.value;
      dynamics.SetSize(dynamicName, w, h);
      if dynamicName in old(dynamics.rows) {
        SizeStoreRoundTrip(old(dynamics.rows), dynamicName, w, h);
      }
      r := Ok((w, h));
    }
  }

  // ----- what the saver promises -------------------------------------------------

  /** A form without any field is refused with 422. */
  lemma NoFieldsRefused(form: AnswerKeyForm, env: WebEnv, writable: bool)
    requires !form.Fields()
    ensures AnswerKeySaved(form, env, writable) == Err(UnprocessableEntity)
  {
  }

  /** When the web path succeeds its capture is the answer key, and the
      image is not looked at. */
  lemma WebPreferred(form: AnswerKeyForm, env: WebEnv, writable: bool)
    requires form.WebFields() && WebSaved(env, writable).Ok?
    ensures env.capture.Captured? && env.capture.decoded.Some?
    ensures AnswerKeySaved(form, env, writable) == Ok(env.capture.decoded.value)
    ensures AnswerKeySaved(form, env, writable) == AnswerKeySaved(form.(image := None), env, writable)
  {
  }

  /** When the web path fails the image is used if there is one, and the
      failure becomes an internal error if there is none, whatever it was
      (a missing web directory included). */
  lemma ImageFallback(form: AnswerKeyForm, env: WebEnv, writable: bool)
    requires form.WebFields() && WebSaved(env, writable).Err?
    ensures form.image.Some? ==>
      AnswerKeySaved(form, env, writable) == UploadSaved(form.image.value, writable)
    ensures form.image.None? ==> AnswerKeySaved(form, env, writable) == Err(Internal)
    ensures !env.dirExists && form.image.None? ==> AnswerKeySaved(form, env, writable) == Err(Internal)
  {
  }

  /** An image with a declared type other than "image/..." is refused with
      415 whenever it is the image that gets used. */
  lemma NonImageRefused(form: AnswerKeyForm, env: WebEnv, writable: bool)
    requires form.image.Some? && !AcceptedType(form.image.value.contentType)
    requires !form.WebFields() || WebSaved(env, writable).Err?
    ensures AnswerKeySaved(form, env, writable) == Err(UnsupportedMediaType)
  {
  }

  /** Whatever path succeeds, the saved image is one of the candidates the
      request offered: the page's capture or the uploaded image. */
  lemma SavedImageIsOffered(form: AnswerKeyForm, env: WebEnv, writable: bool)
    requires AnswerKeySaved(form, env, writable).Ok?
    ensures var img := AnswerKeySaved(form, env, writable).value;
      || (form.WebFields() && env.capture == Captured(Some(img)))
      || (form.image.Some? && form.image.value.content == Some(Some(img)))
  {
  }
}
